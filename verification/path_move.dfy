/** `MovePathBy` (Path.cs): rewrites a path string with every absolute coordinate moved
    by an offset, keeping every command letter, its case and its argument layout. */
module PathMove {
  import opened Text
  import opened Core
  import opened PathScanner

  // ---------------------------------------------------------------------------
  // Moving the arguments
  // ---------------------------------------------------------------------------

  function Shift(p: Point, off: Point): Point { Point(p.x + off.x, p.y + off.y) }

  /** The offset argument `i` of one group of command `u` receives: x positions get dx
      and y positions dy; H has only an x, V only a y, and an arc moves only its
      endpoint (its radii, rotation and flags stay). */
  function OffsetAt(u: char, i: nat, off: Point): real {
    if u == 'H' then off.x
    else if u == 'V' then off.y
    else if u == 'A' then (if i == 5 then off.x else if i == 6 then off.y else 0.0)
    else if i % 2 == 0 then off.x else off.y
  }

  function ShiftGroup(u: char, g: seq<real>, off: Point): (h: seq<real>)
    ensures |h| == |g|
    ensures forall i :: 0 <= i < |g| ==> h[i] == g[i] + OffsetAt(u, i, off)
  {
    seq(|g|, i requires 0 <= i < |g| => g[i] + OffsetAt(u, i, off))
  }

  datatype Moved = Moved(groups: seq<seq<real>>, first: bool)

  /** The complete argument groups of one command, in order, each moved when the command
      is absolute. `first` says that the first relative moveto pair of the path is still
      to come: that pair is moved too. As written the flag is cleared only by a relative
      moveto pair; with `fix` any moveto pair clears it. */
  function MoveGroups(u: char, rel: bool, args: seq<real>, first: bool, fix: bool, off: Point): (m: Moved)
    ensures forall k :: 0 <= k < |m.groups| ==> |m.groups[k]| == Arity(u)
    ensures Arity(u) == 0 ==> m == Moved([], first)
    ensures Arity(u) > 0 ==> |m.groups| * Arity(u) <= |args| < (|m.groups| + 1) * Arity(u)
    ensures u != 'M' ==> m.first == first
    ensures !first ==> !m.first
    decreases |args|
  {
    var k := Arity(u);
    if k == 0 || |args| < k then Moved([], first)
    else
      var g := args[..k];
      var moved := !rel || (u == 'M' && first);
      var tail := MoveGroups(u, rel, args[k..], if u == 'M' && (rel || fix) then false else first, fix, off);
      Moved([if moved then ShiftGroup(u, g, off) else g] + tail.groups, tail.first)
  }

  /** One command as `MovePathBy` writes it: its letter, the groups it writes and whether
      any input followed its numbers. */
  datatype Rewritten = Rewritten(letter: char, groups: seq<seq<real>>, more: bool)

  function Rewrite(cmds: seq<Command>, first: bool, fix: bool, off: Point): (rs: seq<Rewritten>)
    ensures |rs| == |cmds|
    ensures forall k :: 0 <= k < |rs| ==> rs[k].letter == cmds[k].letter && rs[k].more == cmds[k].more
    decreases |cmds|
  {
    if |cmds| == 0 then []
    else
      var c := cmds[0];
      var m := MoveGroups(ToUpper(c.letter), IsLower(c.letter), c.args, first, fix, off);
      [Rewritten(c.letter, m.groups, c.more)] + Rewrite(cmds[1..], m.first, fix, off)
  }

  // ---------------------------------------------------------------------------
  // Writing the text
  // ---------------------------------------------------------------------------

  /** The two arc flags are written with "0", every other number with "0.##". */
  function Format(nf: Numerics, u: char, i: nat, v: real): string {
    if u == 'A' && (i == 3 || i == 4) then nf.fixed0(v) else nf.fixed2(v)
  }

  function Printed(nf: Numerics, u: char, g: seq<real>): (ts: seq<string>)
    ensures |ts| == |g|
  {
    seq(|g|, i requires 0 <= i < |g| => Format(nf, u, i, g[i]))
  }

  function Texts(nf: Numerics, r: Rewritten): (tss: seq<seq<string>>)
    ensures |tss| == |r.groups|
  {
    seq(|r.groups|, k requires 0 <= k < |r.groups| => Printed(nf, ToUpper(r.letter), r.groups[k]))
  }

  /** `" a b"`: every number preceded by one space. */
  function SpaceBeforeEach(ts: seq<string>): string {
    if |ts| == 0 then "" else " " + ts[0] + SpaceBeforeEach(ts[1..])
  }

  /** The groups of one command, one more space between consecutive groups. */
  function ArgsText(tss: seq<seq<string>>): string {
    if |tss| == 0 then ""
    else SpaceBeforeEach(tss[0]) + (if |tss| == 1 then "" else " " + ArgsText(tss[1..]))
  }

  /** A command: its letter, its groups, and one space when more input followed. */
  function CommandText(nf: Numerics, r: Rewritten): string {
    [r.letter] + ArgsText(Texts(nf, r)) + (if r.more then " " else "")
  }

  /** The rewritten commands one after another, before the final trim. */
  function Emit(nf: Numerics, rs: seq<Rewritten>): (r: string)
    ensures |rs| == 0 <==> r == ""
    ensures |rs| > 0 ==> r[0] == rs[0].letter
  {
    if |rs| == 0 then "" else CommandText(nf, rs[0]) + Emit(nf, rs[1..])
  }

  /** `MovePathBy(d, dx, dy)` with the moveto flag as written (`fix` false) or cleared by
      any moveto pair (`fix` true). The scan accepts exponents. A blank string comes back
      unchanged. */
  function MovePathByWith(nf: Numerics, d: string, off: Point, fix: bool): (r: string)
    ensures IsBlank(d) ==> r == d
  {
    if IsBlank(d) then d
    else Trim(Emit(nf, Rewrite(Tokens(nf, d, true), true, fix, off)))
  }

  /** `MovePathBy` as written. */
  function MovePathBy(nf: Numerics, d: string, off: Point): (r: string)
    ensures IsBlank(d) ==> r == d
  {
    MovePathByWith(nf, d, off, false)
  }

  /** `MovePathBy` with the first-relative-moveto flag cleared by an absolute moveto. */
  function MovePathByFixed(nf: Numerics, d: string, off: Point): (r: string)
    ensures IsBlank(d) ==> r == d
  {
    MovePathByWith(nf, d, off, true)
  }

  // ---------------------------------------------------------------------------
  // Reading the text back
  // ---------------------------------------------------------------------------

  function ValueOf(nf: Numerics, t: string): real {
    match nf.parse(t)
    case Some(v) => v
    case None => 0.0
  }

  function Values(nf: Numerics, ts: seq<string>): (vs: seq<real>)
    ensures |vs| == |ts|
  {
    if |ts| == 0 then [] else [ValueOf(nf, ts[0])] + Values(nf, ts[1..])
  }

  function FlatValues(nf: Numerics, tss: seq<seq<string>>): seq<real> {
    if |tss| == 0 then [] else Values(nf, tss[0]) + FlatValues(nf, tss[1..])
  }

  function Flatten(gs: seq<seq<real>>): seq<real> {
    if |gs| == 0 then [] else gs[0] + Flatten(gs[1..])
  }

  /** The commands a rewritten path is meant to be: letters as they were, arguments the
      moved groups back to back. */
  function AsCommands(rs: seq<Rewritten>): (cmds: seq<Command>)
    ensures |cmds| == |rs|
  {
    if |rs| == 0 then [] else [Command(rs[0].letter, Flatten(rs[0].groups), rs[0].more)] + AsCommands(rs[1..])
  }

  /** The commands the printed text of `rs` reads back as. */
  function ReadBack(nf: Numerics, rs: seq<Rewritten>): (cmds: seq<Command>)
    ensures |cmds| == |rs|
  {
    if |rs| == 0 then []
    else [Command(rs[0].letter, FlatValues(nf, Texts(nf, rs[0])), rs[0].more)] + ReadBack(nf, rs[1..])
  }

  /** Same letters and arguments, whatever the "more input" flags. */
  predicate SameBodies(a: seq<Command>, b: seq<Command>) {
    |a| == |b| && forall k :: 0 <= k < |a| ==> a[k].letter == b[k].letter && a[k].args == b[k].args
  }

  lemma SameBodiesCons(a: Command, b: Command, x: seq<Command>, y: seq<Command>)
    requires SameBodies(x, y) && a.letter == b.letter && a.args == b.args
    ensures SameBodies([a] + x, [b] + y)
  {
    var p, q := [a] + x, [b] + y;
    forall k | 0 <= k < |p| ensures p[k].letter == q[k].letter && p[k].args == q[k].args {
      if k > 0 {
        assert p[k] == x[k - 1] && q[k] == y[k - 1];
      }
    }
  }

  /** Every printed number is a numeral the parser accepts. */
  predicate Readable(nf: Numerics, tss: seq<seq<string>>) {
    |tss| == 0 || (Numerals(nf, tss[0]) && Readable(nf, tss[1..]))
  }

  predicate Numerals(nf: Numerics, ts: seq<string>) {
    forall i :: 0 <= i < |ts| ==> IsNumeral(ts[i]) && nf.parse(ts[i]).Some?
  }

  predicate NoEmptyGroup(tss: seq<seq<string>>) {
    forall j :: 0 <= j < |tss| ==> |tss[j]| > 0
  }

  /** The separator test never holds for a numeral character. */
  lemma NumeralStart(t: string)
    requires IsNumeral(t)
    ensures NumberStart(t[0]) && !IsSeparator(t[0])
  {
  }

  lemma NumbersSkipSpace(nf: Numerics, s: string)
    requires |s| > 0 && s[0] == ' '
    ensures Numbers(nf, s, false) == Numbers(nf, s[1..], false)
  {
    assert SkipSeparators(s) == SkipSeparators(s[1..]);
  }

  /** A numeral followed by a separator (or nothing) is read as one number. */
  lemma NumbersOfToken(nf: Numerics, s: string, n: nat)
    requires n <= |s| && IsNumeral(s[..n]) && nf.parse(s[..n]).Some?
    requires n == |s| || IsSeparator(s[n])
    ensures var rest := Numbers(nf, s[n..], false);
      Numbers(nf, s, false) == Scan([ValueOf(nf, s[..n])] + rest.args, rest.rest)
  {
    var t := s[..n];
    NumeralStart(t);
    assert s[0] == t[0];
    assert SkipSeparators(s) == s;
    assert forall i :: 0 <= i < n ==> s[i] == t[i] && NumberChar(s[i], false);
    assert RunLength(s, false) == n;
  }

  lemma SpacedFront(ts: seq<string>, tail: string)
    requires |ts| > 0
    ensures var whole := SpaceBeforeEach(ts) + tail;
      whole[0] == ' ' && whole[1..] == ts[0] + (SpaceBeforeEach(ts[1..]) + tail)
  {
    var a, b := ts[0], SpaceBeforeEach(ts[1..]);
    assert SpaceBeforeEach(ts) + tail == " " + (a + (b + tail));
  }

  lemma SpacedStart(ts: seq<string>, tail: string)
    requires |tail| == 0 || IsSeparator(tail[0])
    ensures var s := SpaceBeforeEach(ts) + tail; |s| == 0 || IsSeparator(s[0])
  {
    if |ts| > 0 {
      SpacedFront(ts, tail);
    } else {
      assert SpaceBeforeEach(ts) + tail == tail;
    }
  }

  /** A space and a numeral in front of more separated text add one number. */
  lemma NumbersStep(nf: Numerics, whole: string, t: string, later: string)
    requires |whole| > 0 && whole[0] == ' ' && whole[1..] == t + later
    requires IsNumeral(t) && nf.parse(t).Some?
    requires |later| == 0 || IsSeparator(later[0])
    ensures var rest := Numbers(nf, later, false);
      Numbers(nf, whole, false) == Scan([ValueOf(nf, t)] + rest.args, rest.rest)
  {
    var x := whole[1..];
    assert x[..|t|] == t && x[|t|..] == later;
    NumbersSkipSpace(nf, whole);
    NumbersOfToken(nf, x, |t|);
  }

  lemma {:induction false} NumbersOfSpaced(nf: Numerics, ts: seq<string>, tail: string)
    requires Numerals(nf, ts)
    requires |tail| == 0 || IsSeparator(tail[0])
    ensures var rest := Numbers(nf, tail, false);
      Numbers(nf, SpaceBeforeEach(ts) + tail, false) == Scan(Values(nf, ts) + rest.args, rest.rest)
    decreases |ts|
  {
    if |ts| > 0 {
      NumeralsTail(nf, ts);
      NumbersOfSpaced(nf, ts[1..], tail);
      NumbersOfSpacedStep(nf, ts, tail);
    } else {
      NumbersOfNoNumerals(nf, ts, tail);
    }
  }

  lemma NumeralsTail(nf: Numerics, ts: seq<string>)
    requires |ts| > 0 && Numerals(nf, ts)
    ensures IsNumeral(ts[0]) && nf.parse(ts[0]).Some? && Numerals(nf, ts[1..])
  {
    assert forall i :: 0 <= i < |ts| - 1 ==> ts[1..][i] == ts[i + 1];
  }

  lemma NumbersOfNoNumerals(nf: Numerics, ts: seq<string>, tail: string)
    requires |ts| == 0
    ensures var rest := Numbers(nf, tail, false);
      Numbers(nf, SpaceBeforeEach(ts) + tail, false) == Scan(Values(nf, ts) + rest.args, rest.rest)
  {
    assert SpaceBeforeEach(ts) + tail == tail;
    assert Values(nf, ts) + Numbers(nf, tail, false).args == Numbers(nf, tail, false).args;
  }

  /** The step of `NumbersOfSpaced`, from the numerals after the first. */
  lemma NumbersOfSpacedStep(nf: Numerics, ts: seq<string>, tail: string)
    requires |ts| > 0 && IsNumeral(ts[0]) && nf.parse(ts[0]).Some?
    requires |tail| == 0 || IsSeparator(tail[0])
    requires var rest := Numbers(nf, tail, false);
      Numbers(nf, SpaceBeforeEach(ts[1..]) + tail, false) == Scan(Values(nf, ts[1..]) + rest.args, rest.rest)
    ensures var rest := Numbers(nf, tail, false);
      Numbers(nf, SpaceBeforeEach(ts) + tail, false) == Scan(Values(nf, ts) + rest.args, rest.rest)
  {
    var whole, later := SpaceBeforeEach(ts) + tail, SpaceBeforeEach(ts[1..]) + tail;
    var rest := Numbers(nf, tail, false);
    var v0, vs := ValueOf(nf, ts[0]), Values(nf, ts[1..]);
    SpacedFront(ts, tail);
    SpacedStart(ts[1..], tail);
    NumbersStep(nf, whole, ts[0], later);
    assert Numbers(nf, later, false).args == vs + rest.args;
    assert Numbers(nf, later, false).rest == rest.rest;
    assert Values(nf, ts) == [v0] + vs;
    AppendAssoc([v0], vs, rest.args);
  }

  lemma AppendAssoc<T>(a: seq<T>, b: seq<T>, c: seq<T>)
    ensures a + (b + c) == (a + b) + c
  {
  }

  lemma ArgsFront(tss: seq<seq<string>>, tail: string)
    requires |tss| > 1
    ensures var later := ArgsText(tss[1..]) + tail;
      ArgsText(tss) + tail == SpaceBeforeEach(tss[0]) + (" " + later)
  {
    var a, b := SpaceBeforeEach(tss[0]), ArgsText(tss[1..]);
    assert ArgsText(tss) + tail == a + (" " + (b + tail));
  }

  /** The groups of a command read back as their numbers, back to back; the scan stops
      where the next command begins. */
  lemma {:induction false} NumbersOfArgs(nf: Numerics, tss: seq<seq<string>>, tail: string)
    requires Readable(nf, tss)
    requires |tail| == 0 || IsSeparator(tail[0])
    requires var t := SkipSeparators(tail); |t| == 0 || !NumberStart(t[0])
    ensures Numbers(nf, ArgsText(tss) + tail, false) == Scan(FlatValues(nf, tss), SkipSeparators(tail))
    decreases |tss|
  {
    if |tss| == 0 {
      assert ArgsText(tss) + tail == tail;
    } else if |tss| == 1 {
      assert ArgsText(tss) + tail == SpaceBeforeEach(tss[0]) + tail;
      NumbersOfSpaced(nf, tss[0], tail);
      assert FlatValues(nf, tss) == Values(nf, tss[0]) + [];
    } else {
      NumbersOfArgs(nf, tss[1..], tail);
      var later := " " + (ArgsText(tss[1..]) + tail);
      ArgsFront(tss, tail);
      assert later[1..] == ArgsText(tss[1..]) + tail;
      NumbersSkipSpace(nf, later);
      NumbersOfSpaced(nf, tss[0], later);
    }
  }

  /** A command without its trailing space. */
  function Unspaced(nf: Numerics, r: Rewritten): string {
    [r.letter] + ArgsText(Texts(nf, r))
  }

  /** The commands separated by single spaces, with no trailing space. */
  function Joined(nf: Numerics, rs: seq<Rewritten>): string {
    if |rs| == 0 then ""
    else Unspaced(nf, rs[0]) + (if |rs| == 1 then "" else " " + Joined(nf, rs[1..]))
  }

  predicate Legible(nf: Numerics, rs: seq<Rewritten>) {
    |rs| == 0 ||
    (IsLetter(rs[0].letter) && Readable(nf, Texts(nf, rs[0])) && NoEmptyGroup(Texts(nf, rs[0]))
     && Legible(nf, rs[1..]))
  }

  /** A scan at a command letter reads that command and continues after its numbers. */
  lemma TokensAtLetter(nf: Numerics, s: string, exponent: bool)
    requires |s| > 0 && IsLetter(s[0])
    ensures var sc := Numbers(nf, s[1..], exponent);
      Tokens(nf, s, exponent) == [Command(s[0], sc.args, |sc.rest| > 0)] + Tokens(nf, sc.rest, exponent)
  {
    assert TrimStart(s) == s;
  }

  lemma JoinedFront(nf: Numerics, rs: seq<Rewritten>)
    requires |rs| > 0
    ensures var s := Joined(nf, rs);
      var tail := if |rs| == 1 then "" else " " + Joined(nf, rs[1..]);
      |s| > 0 && s[0] == rs[0].letter && s[1..] == ArgsText(Texts(nf, rs[0])) + tail
  {
    var a := ArgsText(Texts(nf, rs[0]));
    var tail := if |rs| == 1 then "" else " " + Joined(nf, rs[1..]);
    assert Joined(nf, rs) == Unspaced(nf, rs[0]) + tail;
    AppendAssoc([rs[0].letter], a, tail);
    var u := [rs[0].letter] + (a + tail);
    assert u[0] == rs[0].letter && u[1..] == a + tail;
  }

  lemma SkipSpaceBeforeLetter(s: string)
    requires |s| > 1 && s[0] == ' ' && IsLetter(s[1])
    ensures SkipSeparators(s) == s[1..]
  {
    var t := s[1..];
    assert t[0] == s[1];
    LetterNotSeparator(t[0]);
    assert SkipSeparators(t) == t;
    assert IsSeparator(s[0]);
  }

  lemma LetterNotSeparator(c: char)
    requires IsLetter(c)
    ensures !IsSeparator(c)
  {
  }

  /** One printed command at the front of a scan is read back with its numbers. */
  lemma ReadCommand(nf: Numerics, s: string, r: Rewritten, tail: string)
    requires |s| > 0 && s[0] == r.letter && IsLetter(r.letter)
    requires s[1..] == ArgsText(Texts(nf, r)) + tail && Readable(nf, Texts(nf, r))
    requires |tail| == 0 || IsSeparator(tail[0])
    requires var t := SkipSeparators(tail); |t| == 0 || !NumberStart(t[0])
    ensures var t := SkipSeparators(tail);
      Tokens(nf, s, false) == [Command(r.letter, FlatValues(nf, Texts(nf, r)), |t| > 0)] + Tokens(nf, t, false)
  {
    TokensAtLetter(nf, s, false);
    NumbersOfArgs(nf, Texts(nf, r), tail);
  }

  /** Printed commands read back, command by command, as the numbers they print. */
  lemma {:induction false} TokensOfJoined(nf: Numerics, rs: seq<Rewritten>)
    requires Legible(nf, rs)
    ensures SameBodies(Tokens(nf, Joined(nf, rs), false), ReadBack(nf, rs))
    decreases |rs|
  {
    if |rs| > 0 {
      var s, r := Joined(nf, rs), rs[0];
      var here := Command(r.letter, FlatValues(nf, Texts(nf, r)), r.more);
      assert ReadBack(nf, rs) == [here] + ReadBack(nf, rs[1..]);
      JoinedFront(nf, rs);
      if |rs| > 1 {
        var j := Joined(nf, rs[1..]);
        var tail := " " + j;
        JoinedFront(nf, rs[1..]);
        assert IsLetter(j[0]);
        assert tail[1..] == j;
        SkipSpaceBeforeLetter(tail);
        ReadCommand(nf, s, r, tail);
        TokensOfJoined(nf, rs[1..]);
        SameBodiesCons(Command(r.letter, here.args, true), here, Tokens(nf, j, false), ReadBack(nf, rs[1..]));
      } else {
        assert s[1..] == ArgsText(Texts(nf, r)) + "";
        ReadCommand(nf, s, r, "");
        assert Tokens(nf, "", false) == [] && ReadBack(nf, rs[1..]) == [];
      }
    }
  }

  /** The emitted text is the joined commands plus, when input followed the last
      command, one space. */
  lemma {:induction false} EmitShape(nf: Numerics, rs: seq<Rewritten>)
    requires forall k :: 0 <= k < |rs| - 1 ==> rs[k].more
    ensures Emit(nf, rs) == Joined(nf, rs) + (if |rs| > 0 && rs[|rs| - 1].more then " " else "")
  {
    if |rs| > 1 {
      EmitShape(nf, rs[1..]);
    }
  }

  predicate EndsSolid(s: string) { |s| > 0 && !IsWhiteSpace(s[|s| - 1]) }

  lemma {:induction false} SpacedEndsSolid(ts: seq<string>)
    requires |ts| > 0 && forall i :: 0 <= i < |ts| ==> IsNumeral(ts[i])
    ensures EndsSolid(SpaceBeforeEach(ts))
  {
    var s := SpaceBeforeEach(ts);
    if |ts| == 1 {
      assert s == " " + ts[0];
      assert s[|s| - 1] == ts[0][|ts[0]| - 1];
    } else {
      SpacedEndsSolid(ts[1..]);
      var later := SpaceBeforeEach(ts[1..]);
      assert s == (" " + ts[0]) + later;
      assert s[|s| - 1] == later[|later| - 1];
    }
  }

  lemma {:induction false} ArgsEndSolid(nf: Numerics, tss: seq<seq<string>>, letter: char)
    requires Readable(nf, tss) && NoEmptyGroup(tss) && IsLetter(letter)
    ensures EndsSolid([letter] + ArgsText(tss))
  {
    var s := [letter] + ArgsText(tss);
    if |tss| == 0 {
      assert s == [letter];
    } else if |tss| == 1 {
      SpacedEndsSolid(tss[0]);
      var a := SpaceBeforeEach(tss[0]);
      assert s == [letter] + a;
      assert s[|s| - 1] == a[|a| - 1];
    } else {
      ArgsEndSolid(nf, tss[1..], letter);
      var a := ArgsText(tss[1..]);
      assert [letter] + a == [letter] + a;
      assert EndsSolid(a) by {
        assert ([letter] + a)[|a|] == a[|a| - 1];
      }
      assert s == ([letter] + SpaceBeforeEach(tss[0]) + " ") + a;
      assert s[|s| - 1] == a[|a| - 1];
    }
  }

  lemma {:induction false} JoinedEndsSolid(nf: Numerics, rs: seq<Rewritten>)
    requires |rs| > 0 && Legible(nf, rs)
    ensures EndsSolid(Joined(nf, rs))
    ensures Joined(nf, rs)[0] == rs[0].letter
  {
    var s := Joined(nf, rs);
    if |rs| == 1 {
      ArgsEndSolid(nf, Texts(nf, rs[0]), rs[0].letter);
    } else {
      JoinedEndsSolid(nf, rs[1..]);
      var j := Joined(nf, rs[1..]);
      assert s == (Unspaced(nf, rs[0]) + " ") + j;
      assert s[|s| - 1] == j[|j| - 1];
    }
  }

  /** Trimming removes only the trailing space. */
  lemma TrimEmit(nf: Numerics, rs: seq<Rewritten>)
    requires Legible(nf, rs) && forall k :: 0 <= k < |rs| - 1 ==> rs[k].more
    ensures Trim(Emit(nf, rs)) == Joined(nf, rs)
  {
    EmitShape(nf, rs);
    var j := Joined(nf, rs);
    var s := Emit(nf, rs);
    if |rs| == 0 {
      assert s == "";
    } else {
      JoinedEndsSolid(nf, rs);
      var t := TrimStart(s);
      assert t == s by {
        assert s[0] == j[0];
      }
      var r := TrimEnd(s);
      assert s[|j| - 1] == j[|j| - 1];
      assert |r| == |j|;
      assert r == s[..|j|] == j;
    }
  }

  /** Every command but the last had input after its numbers. */
  predicate MoreUntilLast(cmds: seq<Command>) {
    forall k :: 0 <= k < |cmds| - 1 ==> cmds[k].more
  }

  lemma MoreUntilLastCons(c: Command, later: seq<Command>)
    requires MoreUntilLast(later) && (c.more || later == [])
    ensures MoreUntilLast([c] + later)
  {
    var cmds := [c] + later;
    forall k | 0 <= k < |cmds| - 1 ensures cmds[k].more {
      if k > 0 {
        assert cmds[k] == later[k - 1];
      }
    }
  }

  /** Only the last command of a scan can have nothing after its numbers. */
  lemma {:induction false} TokensMoreUntilLast(nf: Numerics, s: string, exponent: bool)
    ensures MoreUntilLast(Tokens(nf, s, exponent))
    decreases |s|
  {
    var t := TrimStart(s);
    if |t| > 0 {
      if !IsLetter(t[0]) {
        TokensMoreUntilLast(nf, t[1..], exponent);
      } else {
        var sc := Numbers(nf, t[1..], exponent);
        TokensMoreUntilLast(nf, sc.rest, exponent);
        if |sc.rest| == 0 {
          assert TrimStart(sc.rest) == "";
        }
        MoreUntilLastCons(Command(t[0], sc.args, |sc.rest| > 0), Tokens(nf, sc.rest, exponent));
      }
    }
  }

  // ---------------------------------------------------------------------------
  // The written text reads back as the moved commands
  // ---------------------------------------------------------------------------

  lemma {:induction false} ReadableOfNumerals(nf: Numerics, tss: seq<seq<string>>)
    requires forall k :: 0 <= k < |tss| ==> Numerals(nf, tss[k])
    ensures Readable(nf, tss)
    decreases |tss|
  {
    if |tss| > 0 {
      assert forall k :: 0 <= k < |tss| - 1 ==> tss[1..][k] == tss[k + 1];
      ReadableOfNumerals(nf, tss[1..]);
    }
  }

  /** Every group `MovePathBy` writes is a full group of its command. */
  predicate FullGroups(r: Rewritten) {
    forall k :: 0 <= k < |r.groups| ==> |r.groups[k]| == Arity(ToUpper(r.letter)) > 0
  }

  lemma {:induction false} RewriteFullGroups(cmds: seq<Command>, first: bool, fix: bool, off: Point)
    ensures forall k :: 0 <= k < |cmds| ==> FullGroups(Rewrite(cmds, first, fix, off)[k])
    decreases |cmds|
  {
    if |cmds| > 0 {
      var rs := Rewrite(cmds, first, fix, off);
      var c := cmds[0];
      var m := MoveGroups(ToUpper(c.letter), IsLower(c.letter), c.args, first, fix, off);
      RewriteFullGroups(cmds[1..], m.first, fix, off);
      assert rs[0] == Rewritten(c.letter, m.groups, c.more);
      assert forall k :: 1 <= k < |cmds| ==> rs[k] == Rewrite(cmds[1..], m.first, fix, off)[k - 1];
    }
  }

  /** A rewritten command whose letter is a letter and whose groups are full prints
      legibly whenever the fixed formats read back. */
  lemma PrintedLegible(nf: Numerics, r: Rewritten)
    requires FixedFormatsReadBack(nf) && FullGroups(r)
    ensures Readable(nf, Texts(nf, r)) && NoEmptyGroup(Texts(nf, r))
  {
    var tss := Texts(nf, r);
    forall k | 0 <= k < |tss| ensures Numerals(nf, tss[k]) {
      var u := ToUpper(r.letter);
      assert tss[k] == Printed(nf, u, r.groups[k]);
      forall i | 0 <= i < |tss[k]| ensures IsNumeral(tss[k][i]) && nf.parse(tss[k][i]).Some? {
        assert tss[k][i] == Format(nf, u, i, r.groups[k][i]);
      }
    }
    ReadableOfNumerals(nf, tss);
  }

  lemma {:induction false} LegibleCons(nf: Numerics, rs: seq<Rewritten>)
    requires FixedFormatsReadBack(nf)
    requires forall k :: 0 <= k < |rs| ==> IsLetter(rs[k].letter) && FullGroups(rs[k])
    ensures Legible(nf, rs)
    decreases |rs|
  {
    if |rs| > 0 {
      PrintedLegible(nf, rs[0]);
      assert forall k :: 0 <= k < |rs| - 1 ==> rs[1..][k] == rs[k + 1];
      LegibleCons(nf, rs[1..]);
    }
  }

  /** The text `MovePathBy` writes is scanned, command by command, as the letters it read
      with the numbers it printed. */
  lemma MovePathByReadsBack(nf: Numerics, d: string, off: Point, fix: bool)
    requires FixedFormatsReadBack(nf) && !IsBlank(d)
    ensures var rs := Rewrite(Tokens(nf, d, true), true, fix, off);
      SameBodies(Tokens(nf, MovePathByWith(nf, d, off, fix), false), ReadBack(nf, rs))
  {
    var cmds := Tokens(nf, d, true);
    var rs := Rewrite(cmds, true, fix, off);
    RewriteFullGroups(cmds, true, fix, off);
    LegibleCons(nf, rs);
    TokensMoreUntilLast(nf, d, true);
    assert forall k :: 0 <= k < |rs| - 1 ==> rs[k].more;
    TrimEmit(nf, rs);
    TokensOfJoined(nf, rs);
  }

  // ---------------------------------------------------------------------------
  // Exact values read back unchanged
  // ---------------------------------------------------------------------------

  /** Every number a group prints is shown exactly: arc flags are whole, the rest are
      whole hundredths. */
  predicate ExactGroup(u: char, g: seq<real>) {
    forall i :: 0 <= i < |g| ==> if u == 'A' && (i == 3 || i == 4) then IsWhole(g[i]) else IsCents(g[i])
  }

  lemma {:induction false} ValuesAt(nf: Numerics, ts: seq<string>)
    ensures forall i :: 0 <= i < |ts| ==> Values(nf, ts)[i] == ValueOf(nf, ts[i])
    decreases |ts|
  {
    if |ts| > 0 {
      ValuesAt(nf, ts[1..]);
      assert forall i :: 1 <= i < |ts| ==> ts[1..][i - 1] == ts[i];
    }
  }

  lemma PrintedExact(nf: Numerics, u: char, g: seq<real>)
    requires FixedFormatsReadBack(nf) && ExactGroup(u, g)
    ensures Values(nf, Printed(nf, u, g)) == g
  {
    var ts := Printed(nf, u, g);
    ValuesAt(nf, ts);
    forall i | 0 <= i < |g| ensures Values(nf, ts)[i] == g[i] {
      assert ts[i] == Format(nf, u, i, g[i]);
    }
  }

  lemma {:induction false} FlatValuesExact(nf: Numerics, u: char, tss: seq<seq<string>>, gs: seq<seq<real>>)
    requires FixedFormatsReadBack(nf) && |tss| == |gs|
    requires forall k :: 0 <= k < |gs| ==> tss[k] == Printed(nf, u, gs[k]) && ExactGroup(u, gs[k])
    ensures FlatValues(nf, tss) == Flatten(gs)
    decreases |gs|
  {
    if |gs| > 0 {
      PrintedExact(nf, u, gs[0]);
      assert forall k :: 0 <= k < |gs| - 1 ==> tss[1..][k] == tss[k + 1] && gs[1..][k] == gs[k + 1];
      FlatValuesExact(nf, u, tss[1..], gs[1..]);
    }
  }

  predicate Exact(r: Rewritten) {
    forall k :: 0 <= k < |r.groups| ==> ExactGroup(ToUpper(r.letter), r.groups[k])
  }

  /** Commands whose every number prints exactly read back as the moved commands. */
  lemma {:induction false} ReadBackExact(nf: Numerics, rs: seq<Rewritten>)
    requires FixedFormatsReadBack(nf) && forall k :: 0 <= k < |rs| ==> Exact(rs[k])
    ensures ReadBack(nf, rs) == AsCommands(rs)
    decreases |rs|
  {
    if |rs| > 0 {
      FlatValuesExact(nf, ToUpper(rs[0].letter), Texts(nf, rs[0]), rs[0].groups);
      assert forall k :: 0 <= k < |rs| - 1 ==> rs[1..][k] == rs[k + 1];
      ReadBackExact(nf, rs[1..]);
    }
  }

  /** The arguments of one command as `MovePathBy` reads them print exactly: whole
      hundredths, and whole numbers at the arc flag positions. */
  predicate ExactArgs(u: char, args: seq<real>) {
    forall i :: 0 <= i < |args| ==> IsCents(args[i]) && (u == 'A' && (i % 7 == 3 || i % 7 == 4) ==> IsWhole(args[i]))
  }

  /** Every argument of every command, and the offset, print exactly. */
  predicate ExactInput(cmds: seq<Command>, off: Point) {
    IsCents(off.x) && IsCents(off.y) && forall k :: 0 <= k < |cmds| ==> ExactArgs(ToUpper(cmds[k].letter), cmds[k].args)
  }

  lemma CentsSum(a: real, b: real)
    requires IsCents(a) && IsCents(b)
    ensures IsCents(a + b)
  {
    var n, m := (a * 100.0).Floor, (b * 100.0).Floor;
    assert (a + b) * 100.0 == (n + m) as real;
  }

  /** The first group of exact arguments is exact, moved or not. */
  lemma FirstGroupExact(u: char, args: seq<real>, off: Point)
    requires ExactArgs(u, args) && IsCents(off.x) && IsCents(off.y) && 0 < Arity(u) <= |args|
    ensures ExactGroup(u, args[..Arity(u)]) && ExactGroup(u, ShiftGroup(u, args[..Arity(u)], off))
  {
    var k := Arity(u);
    var g := args[..k];
    assert IsCents(0.0) by { assert (0.0 * 100.0).Floor == 0; }
    forall i | 0 <= i < k ensures IsCents(ShiftGroup(u, g, off)[i]) {
      assert IsCents(OffsetAt(u, i, off));
      CentsSum(g[i], OffsetAt(u, i, off));
    }
  }

  /** The arguments after the first group stay exact. */
  lemma LaterArgsExact(u: char, args: seq<real>)
    requires ExactArgs(u, args) && 0 < Arity(u) <= |args|
    ensures ExactArgs(u, args[Arity(u)..])
  {
    var k := Arity(u);
    forall i | 0 <= i < |args| - k
      ensures IsCents(args[k..][i]) && (u == 'A' && (i % 7 == 3 || i % 7 == 4) ==> IsWhole(args[k..][i]))
    {
      assert args[k..][i] == args[i + k];
      assert u == 'A' ==> (i + k) % 7 == i % 7;
    }
  }

  lemma {:induction false} MoveGroupsExact(u: char, rel: bool, args: seq<real>, first: bool, fix: bool, off: Point)
    requires ExactArgs(u, args) && IsCents(off.x) && IsCents(off.y)
    ensures forall j :: 0 <= j < |MoveGroups(u, rel, args, first, fix, off).groups| ==>
      ExactGroup(u, MoveGroups(u, rel, args, first, fix, off).groups[j])
    decreases |args|
  {
    var k := Arity(u);
    if k > 0 && |args| >= k {
      FirstGroupExact(u, args, off);
      LaterArgsExact(u, args);
      var next := if u == 'M' && (rel || fix) then false else first;
      MoveGroupsExact(u, rel, args[k..], next, fix, off);
      var tail := MoveGroups(u, rel, args[k..], next, fix, off).groups;
      var h := if !rel || (u == 'M' && first) then ShiftGroup(u, args[..k], off) else args[..k];
      var gs := MoveGroups(u, rel, args, first, fix, off).groups;
      assert gs == [h] + tail;
      forall j | 0 <= j < |gs| ensures ExactGroup(u, gs[j]) {
        if j > 0 {
          assert gs[j] == tail[j - 1];
        }
      }
    }
  }

  lemma {:induction false} RewriteExact(cmds: seq<Command>, first: bool, fix: bool, off: Point)
    requires ExactInput(cmds, off)
    ensures forall k :: 0 <= k < |cmds| ==> Exact(Rewrite(cmds, first, fix, off)[k])
    decreases |cmds|
  {
    if |cmds| > 0 {
      var c := cmds[0];
      var m := MoveGroups(ToUpper(c.letter), IsLower(c.letter), c.args, first, fix, off);
      MoveGroupsExact(ToUpper(c.letter), IsLower(c.letter), c.args, first, fix, off);
      assert forall k :: 0 <= k < |cmds| - 1 ==> cmds[1..][k] == cmds[k + 1];
      RewriteExact(cmds[1..], m.first, fix, off);
      var rs := Rewrite(cmds, first, fix, off);
      var later := Rewrite(cmds[1..], m.first, fix, off);
      assert rs == [Rewritten(c.letter, m.groups, c.more)] + later;
      assert Exact(rs[0]) by {
        assert rs[0].groups == m.groups && ToUpper(rs[0].letter) == ToUpper(c.letter);
      }
      forall k | 0 <= k < |rs| ensures Exact(rs[k]) {
        if k > 0 {
          assert rs[k] == later[k - 1];
        }
      }
    }
  }
}
