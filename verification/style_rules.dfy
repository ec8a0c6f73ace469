/** `StyleRuleService`: named rules, each a list of conditions on a path's style and a
    list of actions that restyle the paths satisfying all of them. */
module StyleRules {
  import opened Text
  import opened Core
  import opened PathItems
  import EditorState

  /** The property a condition looks at; `UnknownField` stands for any other value the
      enumeration can hold after deserialization. */
  datatype ConditionField =
    | StrokeWidth | Opacity | StrokeOpacity | PathLength
    | StrokeLineCap | LineType | StrokeLineJoin
    | UnknownField(code: int)

  datatype Comparison = Equal | Less | Greater | LessOrEqual | GreaterOrEqual | UnknownComparison(code: int)

  /** The property an action sets. */
  datatype ActionField =
    | SetStrokeWidth | SetOpacity | SetStrokeOpacity
    | SetLineCap | SetLineType | SetLineJoin
    | AnimationSpeed | GlowEffect
    | UnknownAction(code: int)

  datatype Condition = Condition(field: ConditionField, comparison: Comparison, value: string)

  datatype Action = Action(field: ActionField, value: string, extra: Option<string>)

  /** A rule; `id` is its GUID and stands for the rule object's identity. */
  datatype Rule = Rule(id: string, name: string, conditions: seq<Condition>, actions: seq<Action>)

  /** The tolerance of `Equal`. */
  const Tolerance: real := 0.0001

  function Abs(x: real): (a: real)
    ensures a >= 0.0 && (a == x || a == -x)
  {
    if x < 0.0 then -x else x
  }

  // ---------------------------------------------------------------------------
  // Conditions
  // ---------------------------------------------------------------------------

  /** `Compare(left, rightStr, cmp)`: the text on the right must parse; `Equal` allows
      the tolerance, the orderings are exact, an unknown comparison never holds. */
  function Compare(nf: Numerics, left: real, right: string, cmp: Comparison): (ok: bool)
    ensures ok ==> nf.parse(right).Some? && !cmp.UnknownComparison?
    ensures nf.parse(right).Some? ==> var r := nf.parse(right).value;
      && (cmp == Equal ==> (ok <==> -Tolerance < left - r < Tolerance))
      && (cmp == Less ==> (ok <==> left < r))
      && (cmp == Greater ==> (ok <==> left > r))
      && (cmp == LessOrEqual ==> (ok <==> left <= r))
      && (cmp == GreaterOrEqual ==> (ok <==> left >= r))
  {
    match nf.parse(right)
    case None => false
    case Some(r) =>
      match cmp
      case Equal => Abs(left - r) < Tolerance
      case Less => left < r
      case Greater => left > r
      case LessOrEqual => left <= r
      case GreaterOrEqual => left >= r
      case UnknownComparison(_) => false
  }

  /** `StringEquals`: trimmed, ordinal, ignoring case. */
  predicate StringEquals(a: string, b: string) {
    EqualsIgnoreCase(Trim(a), Trim(b))
  }

  /** `EstimatePathLength`: the number of `L`, `C`, `Q` and `M` characters. */
  function EstimatePathLength(d: string): (n: real)
    ensures 0.0 <= n <= |d| as real
  {
    CountOf(d, {'L', 'C', 'Q', 'M'}) as real
  }

  /** Whether one condition holds for a path; an unknown field is passed over. */
  predicate Holds(nf: Numerics, p: Shape, c: Condition)
    requires p.PathShape?
  {
    match c.field
    case StrokeWidth => Compare(nf, p.strokeWidth, c.value, c.comparison)
    case Opacity => Compare(nf, p.opacity, c.value, c.comparison)
    case StrokeOpacity => Compare(nf, p.opacity, c.value, c.comparison)
    case PathLength => Compare(nf, EstimatePathLength(p.d), c.value, c.comparison)
    case StrokeLineCap => StringEquals(p.lineCap, c.value)
    case LineType => StringEquals(p.lineType, c.value)
    case StrokeLineJoin => StringEquals(p.lineJoin, c.value)
    case UnknownField(_) => true
  }

  /** `Matches`: the conditions are checked in order and the first that fails decides. */
  function Matches(nf: Numerics, p: Shape, conds: seq<Condition>): (ok: bool)
    requires p.PathShape?
    ensures ok <==> forall i :: 0 <= i < |conds| ==> Holds(nf, p, conds[i])
  {
    if |conds| == 0 then true
    else if !Holds(nf, p, conds[0]) then false
    else
      assert forall i :: 1 <= i < |conds| ==> conds[i] == conds[1..][i - 1];
      Matches(nf, p, conds[1..])
  }

  /** `GetMatches`: the path items satisfying the rule, in their order. */
  function GetMatches(nf: Numerics, items: seq<Item>, rule: Rule): (ms: seq<Item>)
    ensures |ms| <= |items|
    ensures forall i :: 0 <= i < |ms| ==> ms[i] in items && IsPath(ms[i]) && Matches(nf, ms[i].shape, rule.conditions)
    ensures forall i :: 0 <= i < |items| && IsPath(items[i]) && Matches(nf, items[i].shape, rule.conditions) ==> items[i] in ms
  {
    if |items| == 0 then []
    else
      var rest := GetMatches(nf, items[1..], rule);
      assert forall i :: 1 <= i < |items| ==> items[i] == items[1..][i - 1];
      if IsPath(items[0]) && Matches(nf, items[0].shape, rule.conditions) then [items[0]] + rest else rest
  }

  // ---------------------------------------------------------------------------
  // Actions
  // ---------------------------------------------------------------------------

  /** A path with another opacity. */
  function WithOpacity(p: Shape, v: real): (q: Shape)
    requires p.PathShape?
    ensures q.PathShape? && q.opacity == v
  {
    PathShape(p.d, p.stroke, p.strokeWidth, v, p.lineType, p.lineCap, p.lineJoin, p.bounds)
  }

  /** One action on a path: numeric values must parse and text values must not be
      blank, otherwise the action is skipped; speed and glow change nothing here. */
  function Effect(nf: Numerics, p: Shape, a: Action): (q: Shape)
    requires p.PathShape?
    ensures q.PathShape? && q.d == p.d && q.stroke == p.stroke && q.bounds == p.bounds
    ensures (a.field == SetStrokeWidth || a.field == SetOpacity || a.field == SetStrokeOpacity) && nf.parse(a.value).None?
      ==> q == p
    ensures (a.field == SetLineCap || a.field == SetLineType || a.field == SetLineJoin) && IsBlank(a.value)
      ==> q == p
    ensures a.field == SetStrokeWidth && nf.parse(a.value).Some? ==> q == p.(strokeWidth := nf.parse(a.value).value)
    ensures (a.field == SetOpacity || a.field == SetStrokeOpacity) && nf.parse(a.value).Some? ==>
            q == WithOpacity(p, nf.parse(a.value).value)
    ensures a.field == SetLineCap && !IsBlank(a.value) ==> q == p.(lineCap := a.value)
    ensures a.field == SetLineType && !IsBlank(a.value) ==> q == p.(lineType := a.value)
    ensures a.field == SetLineJoin && !IsBlank(a.value) ==> q == p.(lineJoin := a.value)
    ensures a.field.AnimationSpeed? || a.field.GlowEffect? || a.field.UnknownAction? ==> q == p
  {
    match a.field
    case SetStrokeWidth => if nf.parse(a.value).Some? then p.(strokeWidth := nf.parse(a.value).value) else p
    case SetOpacity => if nf.parse(a.value).Some? then WithOpacity(p, nf.parse(a.value).value) else p
    case SetStrokeOpacity => if nf.parse(a.value).Some? then WithOpacity(p, nf.parse(a.value).value) else p
    case SetLineCap => if !IsBlank(a.value) then p.(lineCap := a.value) else p
    case SetLineType => if !IsBlank(a.value) then p.(lineType := a.value) else p
    case SetLineJoin => if !IsBlank(a.value) then p.(lineJoin := a.value) else p
    case AnimationSpeed => p
    case GlowEffect => p
    case UnknownAction(_) => p
  }

  /** A rule's actions, in order. */
  function Effects(nf: Numerics, p: Shape, acts: seq<Action>): (q: Shape)
    requires p.PathShape?
    ensures q.PathShape? && q.d == p.d && q.stroke == p.stroke && q.bounds == p.bounds
    decreases |acts|
  {
    if |acts| == 0 then p else Effects(nf, Effect(nf, p, acts[0]), acts[1..])
  }

  /** One rule's turn in `Apply`: if the path, as the earlier rules left it, matches,
      the actions run and the path is highlighted. */
  function Step(nf: Numerics, it: Item, rule: Rule): (r: Item)
    requires IsPath(it)
    ensures IsPath(r) && r.id == it.id && r.selected == it.selected
    ensures r.highlight == (it.highlight || Matches(nf, it.shape, rule.conditions))
    ensures !Matches(nf, it.shape, rule.conditions) ==> r == it
  {
    if Matches(nf, it.shape, rule.conditions)
    then it.(shape := Effects(nf, it.shape, rule.actions), highlight := true)
    else it
  }

  function Steps(nf: Numerics, it: Item, rules: seq<Rule>): (r: Item)
    requires IsPath(it)
    ensures IsPath(r) && r.id == it.id && r.selected == it.selected
    ensures r.shape.d == it.shape.d && r.shape.stroke == it.shape.stroke && r.shape.bounds == it.shape.bounds
    ensures it.highlight ==> r.highlight
    decreases |rules|
  {
    if |rules| == 0 then it else Steps(nf, Step(nf, it, rules[0]), rules[1..])
  }

  /** `Apply(item)`: only paths are restyled, by every rule in turn. */
  function Apply(nf: Numerics, it: Item, rules: seq<Rule>): (r: Item)
    ensures !IsPath(it) ==> r == it
    ensures IsPath(r) == IsPath(it) && r.id == it.id && r.selected == it.selected
    ensures IsPath(it) ==> r.shape.d == it.shape.d && r.shape.stroke == it.shape.stroke && r.shape.bounds == it.shape.bounds
    ensures it.highlight ==> r.highlight
  {
    if IsPath(it) then Steps(nf, it, rules) else it
  }

  // ---------------------------------------------------------------------------
  // The rule list
  // ---------------------------------------------------------------------------

  predicate HasRule(rules: seq<Rule>, id: string) {
    exists i :: 0 <= i < |rules| && rules[i].id == id
  }

  /** `Add(rule)`. */
  function AddRule(rules: seq<Rule>, rule: Rule): (r: seq<Rule>)
    ensures |r| == |rules| + 1 && r[..|rules|] == rules && r[|rules|] == rule
  {
    rules + [rule]
  }

  /** `r` is `rules` without the first rule carrying `id`, or `rules` itself when no
      rule carries it. */
  predicate RemovedFirst(rules: seq<Rule>, id: string, r: seq<Rule>) {
    && (!HasRule(rules, id) ==> r == rules)
    && (HasRule(rules, id) ==>
          |r| == |rules| - 1 &&
          exists k :: 0 <= k < |rules| && rules[k].id == id && (forall i :: 0 <= i < k ==> rules[i].id != id) &&
                      r == rules[..k] + rules[k + 1..])
  }

  /** `Delete(rule)`: `List.Remove`, which takes out the first occurrence of the rule
      and ignores a rule not in the list. */
  function DeleteRule(rules: seq<Rule>, id: string): (r: seq<Rule>)
    ensures RemovedFirst(rules, id, r)
  {
    if |rules| == 0 then rules
    else if rules[0].id == id then
      assert rules == rules[..0] + [rules[0]] + rules[1..];
      rules[1..]
    else
      var rest := DeleteRule(rules[1..], id);
      RemovedFirstCons(rules, id, rest);
      [rules[0]] + rest
  }

  lemma RemovedFirstCons(rules: seq<Rule>, id: string, rest: seq<Rule>)
    requires |rules| > 0 && rules[0].id != id && RemovedFirst(rules[1..], id, rest)
    ensures RemovedFirst(rules, id, [rules[0]] + rest)
  {
    var t := rules[1..];
    assert HasRule(rules, id) <==> HasRule(t, id) by {
      if HasRule(rules, id) {
        var i :| 0 <= i < |rules| && rules[i].id == id;
        assert t[i - 1] == rules[i];
      }
      if HasRule(t, id) {
        var i :| 0 <= i < |t| && t[i].id == id;
        assert rules[i + 1] == t[i];
      }
    }
    if HasRule(t, id) {
      var k :| 0 <= k < |t| && t[k].id == id && (forall i :: 0 <= i < k ==> t[i].id != id) &&
               rest == t[..k] + t[k + 1..];
      RemovedAt(rules, id, rest, k);
    }
  }

  lemma RemovedAt(rules: seq<Rule>, id: string, rest: seq<Rule>, k: nat)
    requires |rules| > 0 && rules[0].id != id && k < |rules| - 1
    requires rules[1..][k].id == id && (forall i :: 0 <= i < k ==> rules[1..][i].id != id)
    requires rest == rules[1..][..k] + rules[1..][k + 1..]
    ensures rules[k + 1].id == id && forall i :: 0 <= i < k + 1 ==> rules[i].id != id
    ensures [rules[0]] + rest == rules[..k + 1] + rules[k + 2..]
  {
    var t := rules[1..];
    forall i | 0 < i < k + 1 ensures rules[i].id != id {
      assert rules[i] == t[i - 1];
    }
    assert rules[..k + 1] == [rules[0]] + t[..k];
    assert rules[k + 2..] == t[k + 1..];
  }

  /** The copy `Duplicate` makes: a new id, the name with " Copy" appended, the same
      conditions and actions. */
  function CopyOf(rule: Rule, freshId: string): (c: Rule)
    ensures c.id == freshId && c.name == rule.name + " Copy"
    ensures c.conditions == rule.conditions && c.actions == rule.actions
  {
    Rule(freshId, rule.name + " Copy", rule.conditions, rule.actions)
  }

  /** `Duplicate(rule)`: appends the copy; the rule itself is not touched. The new GUID
      is a parameter. */
  function Duplicate(rules: seq<Rule>, rule: Rule, freshId: string): (r: seq<Rule>)
    ensures r == AddRule(rules, CopyOf(rule, freshId))
  {
    rules + [CopyOf(rule, freshId)]
  }

  // ---------------------------------------------------------------------------
  // Properties
  // ---------------------------------------------------------------------------

  /** A rule without conditions matches every path. */
  lemma EmptyRuleMatches(nf: Numerics, p: Shape)
    requires p.PathShape?
    ensures Matches(nf, p, [])
  {
  }

  /** Once the right side parses, `Less` and `GreaterOrEqual` split every value between
      them, as do `Greater` and `LessOrEqual`. */
  lemma OrderingsComplement(nf: Numerics, left: real, right: string)
    requires nf.parse(right).Some?
    ensures Compare(nf, left, right, Less) <==> !Compare(nf, left, right, GreaterOrEqual)
    ensures Compare(nf, left, right, Greater) <==> !Compare(nf, left, right, LessOrEqual)
  {
  }

  /** `Equal` is symmetric when numbers print in a form that reads back. */
  lemma EqualIsSymmetric(nf: Numerics, a: real, b: real)
    requires TextReadsBack(nf)
    ensures Compare(nf, a, nf.text(b), Equal) <==> Compare(nf, b, nf.text(a), Equal)
  {
    assert nf.parse(nf.text(b)) == Some(b) && nf.parse(nf.text(a)) == Some(a);
  }

  /** Every value compares equal to its own printed form. */
  lemma EqualIsReflexive(nf: Numerics, a: real)
    requires TextReadsBack(nf)
    ensures Compare(nf, a, nf.text(a), Equal)
    ensures Compare(nf, a, nf.text(a), LessOrEqual) && Compare(nf, a, nf.text(a), GreaterOrEqual)
  {
    assert nf.parse(nf.text(a)) == Some(a);
  }

  /** `StringEquals` does not care which side is which, nor about surrounding blanks. */
  lemma StringEqualsSymmetric(a: string, b: string)
    ensures StringEquals(a, b) <==> StringEquals(b, a)
  {
  }

  lemma {:induction false} TrimStartSkipsBlank(c: char, s: string)
    requires IsWhiteSpace(c)
    ensures TrimStart([c] + s) == TrimStart(s)
  {
    assert ([c] + s)[1..] == s;
  }

  lemma StringEqualsIgnoresLeadingBlank(c: char, a: string)
    requires IsWhiteSpace(c)
    ensures StringEquals([c] + a, a)
  {
    TrimStartSkipsBlank(c, a);
  }

  /** The length estimate of joined data is the sum of the estimates. */
  lemma EstimateOfAppend(a: string, b: string)
    ensures EstimatePathLength(a + b) == EstimatePathLength(a) + EstimatePathLength(b)
  {
    CountOfAppend(a, b, {'L', 'C', 'Q', 'M'});
  }

  /** Matching commutes with concatenation of the item list, so the matches keep the
      items' order. */
  lemma {:induction false} GetMatchesOfAppend(nf: Numerics, a: seq<Item>, b: seq<Item>, rule: Rule)
    ensures GetMatches(nf, a + b, rule) == GetMatches(nf, a, rule) + GetMatches(nf, b, rule)
  {
    if |a| == 0 {
      assert a + b == b;
    } else {
      assert (a + b)[1..] == a[1..] + b;
      GetMatchesOfAppend(nf, a[1..], b, rule);
    }
  }

  /** A duplicate selects the same paths as its original. */
  lemma DuplicateMatchesAlike(nf: Numerics, items: seq<Item>, rule: Rule, freshId: string)
    ensures GetMatches(nf, items, CopyOf(rule, freshId)) == GetMatches(nf, items, rule)
  {
  }

  /** Deleting the rule just added restores the list, when its id was new. */
  lemma DeleteAfterAdd(rules: seq<Rule>, rule: Rule)
    requires !HasRule(rules, rule.id)
    ensures DeleteRule(AddRule(rules, rule), rule.id) == rules
  {
    var r := AddRule(rules, rule);
    assert HasRule(r, rule.id) by { assert r[|rules|].id == rule.id; }
    var k :| 0 <= k < |r| && r[k].id == rule.id && (forall i :: 0 <= i < k ==> r[i].id != rule.id) &&
             DeleteRule(r, rule.id) == r[..k] + r[k + 1..];
    assert forall i :: 0 <= i < |rules| ==> r[i].id != rule.id by {
      forall i | 0 <= i < |rules| ensures r[i].id != rule.id {
        assert r[i] == rules[i];
      }
    }
    assert r[..|rules|] == rules;
  }

  /** Deleting a duplicate by its new id undoes `Duplicate`. */
  lemma DeleteUndoesDuplicate(rules: seq<Rule>, rule: Rule, freshId: string)
    requires !HasRule(rules, freshId)
    ensures DeleteRule(Duplicate(rules, rule, freshId), freshId) == rules
  {
    DeleteAfterAdd(rules, CopyOf(rule, freshId));
  }

  /** Applying one list of rules and then another is applying their concatenation. */
  lemma {:induction false} StepsOfAppend(nf: Numerics, it: Item, a: seq<Rule>, b: seq<Rule>)
    requires IsPath(it)
    ensures Steps(nf, it, a + b) == Steps(nf, Steps(nf, it, a), b)
    decreases |a|
  {
    if |a| == 0 {
      assert a + b == b;
    } else {
      assert (a + b)[1..] == a[1..] + b;
      StepsOfAppend(nf, Step(nf, it, a[0]), a[1..], b);
    }
  }

  lemma ApplyOfAppend(nf: Numerics, it: Item, a: seq<Rule>, b: seq<Rule>)
    ensures Apply(nf, it, a + b) == Apply(nf, Apply(nf, it, a), b)
  {
    if IsPath(it) {
      StepsOfAppend(nf, it, a, b);
    }
  }

  /** The item as it stands when rule `k` takes its turn. */
  function Stage(nf: Numerics, it: Item, rules: seq<Rule>, k: nat): (r: Item)
    requires IsPath(it) && k <= |rules|
    ensures IsPath(r)
  {
    Steps(nf, it, rules[..k])
  }

  /** `Apply` highlights the path exactly when it was highlighted already or some rule
      matched it at its turn. */
  lemma {:induction false} HighlightIffMatched(nf: Numerics, it: Item, rules: seq<Rule>)
    requires IsPath(it)
    ensures Apply(nf, it, rules).highlight <==>
      it.highlight || exists k :: 0 <= k < |rules| && Matches(nf, Stage(nf, it, rules, k).shape, rules[k].conditions)
    decreases |rules|
  {
    if |rules| > 0 {
      var it1 := Step(nf, it, rules[0]);
      var tail := rules[1..];
      HighlightIffMatched(nf, it1, tail);
      assert Stage(nf, it, rules, 0) == it by { assert rules[..0] == []; }
      forall k | 0 <= k < |tail|
        ensures Stage(nf, it1, tail, k) == Stage(nf, it, rules, k + 1)
      {
        assert rules[..k + 1] == [rules[0]] + tail[..k];
        assert Steps(nf, it, [rules[0]] + tail[..k]) == Steps(nf, it1, tail[..k]) by {
          assert ([rules[0]] + tail[..k])[1..] == tail[..k];
        }
      }
      var m := exists k :: 0 <= k < |rules| && Matches(nf, Stage(nf, it, rules, k).shape, rules[k].conditions);
      var mt := exists k :: 0 <= k < |tail| && Matches(nf, Stage(nf, it1, tail, k).shape, tail[k].conditions);
      assert m <==> Matches(nf, it.shape, rules[0].conditions) || mt by {
        if mt {
          var k :| 0 <= k < |tail| && Matches(nf, Stage(nf, it1, tail, k).shape, tail[k].conditions);
          assert rules[k + 1] == tail[k];
        }
        if m {
          var k :| 0 <= k < |rules| && Matches(nf, Stage(nf, it, rules, k).shape, rules[k].conditions);
          if k > 0 {
            assert rules[k] == tail[k - 1];
          }
        }
      }
    }
  }

  /** A rule without conditions whose only action sets a parsable stroke width, placed
      last, decides the width of every path. */
  lemma LastWidthRuleWins(nf: Numerics, it: Item, rules: seq<Rule>, rule: Rule)
    requires IsPath(it) && rule.conditions == [] && |rule.actions| == 1
    requires rule.actions[0].field == SetStrokeWidth && nf.parse(rule.actions[0].value).Some?
    ensures Apply(nf, it, rules + [rule]).shape.strokeWidth == nf.parse(rule.actions[0].value).value
    ensures Apply(nf, it, rules + [rule]).highlight
  {
    StepsOfAppend(nf, it, rules, [rule]);
    var mid := Steps(nf, it, rules);
    assert Steps(nf, mid, [rule]) == Step(nf, mid, rule) by {
      assert [rule][1..] == [];
    }
    assert Effects(nf, mid.shape, rule.actions) == Effect(nf, mid.shape, rule.actions[0]) by {
      assert rule.actions[1..] == [];
    }
  }

  // ---------------------------------------------------------------------------
  // Highlighting the matches in the editor
  // ---------------------------------------------------------------------------

  /** The item is a path the rule matches. */
  predicate IsMatch(nf: Numerics, it: Item, rule: Rule) {
    IsPath(it) && Matches(nf, it.shape, rule.conditions)
  }

  function IdsOf(ms: seq<Item>): (ids: seq<string>)
    ensures |ids| == |ms| && forall i :: 0 <= i < |ms| ==> ids[i] == ms[i].id
  {
    seq(|ms|, i requires 0 <= i < |ms| => ms[i].id)
  }

  /** Two lists that differ only in the items' flags. */
  predicate SameButFlags(a: seq<Item>, b: seq<Item>) {
    |a| == |b| && forall i :: 0 <= i < |a| ==> a[i].id == b[i].id && a[i].shape == b[i].shape
  }

  /** Which items match does not depend on their flags. */
  lemma {:induction false} MatchesIgnoreFlags(nf: Numerics, a: seq<Item>, b: seq<Item>, rule: Rule)
    requires SameButFlags(a, b)
    ensures IdsOf(GetMatches(nf, a, rule)) == IdsOf(GetMatches(nf, b, rule))
    decreases |a|
  {
    if |a| > 0 {
      assert SameButFlags(a[1..], b[1..]);
      MatchesIgnoreFlags(nf, a[1..], b[1..], rule);
      MatchesIgnoreFlagsStep(nf, a, b, rule);
    }
  }

  lemma MatchesIgnoreFlagsStep(nf: Numerics, a: seq<Item>, b: seq<Item>, rule: Rule)
    requires |a| > 0 && SameButFlags(a, b)
    requires IdsOf(GetMatches(nf, a[1..], rule)) == IdsOf(GetMatches(nf, b[1..], rule))
    ensures IdsOf(GetMatches(nf, a, rule)) == IdsOf(GetMatches(nf, b, rule))
  {
    GetMatchesCons(nf, a, rule);
    GetMatchesCons(nf, b, rule);
    assert IsMatch(nf, a[0], rule) <==> IsMatch(nf, b[0], rule) by {
      assert a[0].shape == b[0].shape;
    }
    IdsOfCons(a[0], GetMatches(nf, a[1..], rule));
    IdsOfCons(b[0], GetMatches(nf, b[1..], rule));
  }

  lemma GetMatchesCons(nf: Numerics, a: seq<Item>, rule: Rule)
    requires |a| > 0
    ensures GetMatches(nf, a, rule) ==
      if IsMatch(nf, a[0], rule) then [a[0]] + GetMatches(nf, a[1..], rule) else GetMatches(nf, a[1..], rule)
  {
  }

  lemma IdsOfCons(x: Item, ms: seq<Item>)
    ensures IdsOf([x] + ms) == [x.id] + IdsOf(ms)
  {
  }

  /** The items with every matching path highlighted. */
  function Lit(nf: Numerics, items: seq<Item>, rule: Rule): (r: seq<Item>)
    ensures SameButFlags(items, r)
    ensures forall i :: 0 <= i < |items| ==> r[i].selected == items[i].selected
    ensures forall i :: 0 <= i < |items| ==> (r[i].highlight <==> items[i].highlight || IsMatch(nf, items[i], rule))
  {
    seq(|items|, i requires 0 <= i < |items| =>
          if IsMatch(nf, items[i], rule) then items[i].(highlight := true) else items[i])
  }

  /** `HighlightMatches(items, rule)`, called with the editor's own items: every
      matching path is highlighted; when the service is attached to the editor the
      matches become the selection. The matches are returned. */
  function HighlightMatches(nf: Numerics, e: EditorState.Editor, rule: Rule, attached: bool): (r: (EditorState.Editor, seq<Item>))
    ensures SameButFlags(e.items, r.0.items)
    ensures forall i :: 0 <= i < |e.items| ==>
      (r.0.items[i].highlight <==> e.items[i].highlight || IsMatch(nf, e.items[i], rule))
    ensures !attached ==> (r.0 == e.(items := r.0.items) &&
      forall i :: 0 <= i < |e.items| ==> r.0.items[i].selected == e.items[i].selected)
    ensures attached ==> r.0.selected == IdsOf(r.1) && EditorState.SelectionAgrees(r.0)
    ensures r.1 == GetMatches(nf, r.0.items, rule)
  {
    var lit := Lit(nf, e.items, rule);
    var e1 := e.(items := lit);
    if attached then
      var r := SelectLit(nf, e1, rule);
      SameButFlagsTrans(e.items, lit, r.0.items);
      r
    else (e1, GetMatches(nf, lit, rule))
  }

  lemma SameButFlagsTrans(a: seq<Item>, b: seq<Item>, c: seq<Item>)
    requires SameButFlags(a, b) && SameButFlags(b, c)
    ensures SameButFlags(a, c)
  {
  }

  /** The attached case: the matches become the editor's selection, and the matches are
      taken from the items as selected. */
  function SelectLit(nf: Numerics, e: EditorState.Editor, rule: Rule): (r: (EditorState.Editor, seq<Item>))
    ensures SameButFlags(e.items, r.0.items)
    ensures forall i :: 0 <= i < |e.items| ==> r.0.items[i].highlight == e.items[i].highlight
    ensures r.0.selected == IdsOf(r.1) && EditorState.SelectionAgrees(r.0)
    ensures r.1 == GetMatches(nf, r.0.items, rule)
    ensures r.0 == EditorState.SelectMultiple(e, IdsOf(GetMatches(nf, e.items, rule)))
  {
    var e2 := EditorState.SelectMultiple(e, IdsOf(GetMatches(nf, e.items, rule)));
    assert SameButFlags(e.items, e2.items);
    MatchesIgnoreFlags(nf, e.items, e2.items, rule);
    (e2, GetMatches(nf, e2.items, rule))
  }

  /** Every returned item is a highlighted matching path of the editor, and every
      matching path is returned. */
  lemma ReturnedAreMatches(nf: Numerics, e: EditorState.Editor, rule: Rule, attached: bool)
    ensures var r := HighlightMatches(nf, e, rule, attached);
      && (forall i :: 0 <= i < |r.1| ==> r.1[i] in r.0.items && r.1[i].highlight && IsMatch(nf, r.1[i], rule))
      && (forall i :: 0 <= i < |r.0.items| && IsMatch(nf, r.0.items[i], rule) ==> r.0.items[i] in r.1)
  {
    var r := HighlightMatches(nf, e, rule, attached);
    forall i | 0 <= i < |r.1| ensures r.1[i].highlight {
      var j :| 0 <= j < |r.0.items| && r.0.items[j] == r.1[i];
      assert IsMatch(nf, e.items[j], rule);
    }
  }

  /** With unique ids and the service attached, exactly the matching paths end up
      selected. */
  lemma SelectedIffMatched(nf: Numerics, e: EditorState.Editor, rule: Rule)
    requires EditorState.UniqueIds(e.items)
    ensures var r := HighlightMatches(nf, e, rule, true).0;
      forall i :: 0 <= i < |e.items| ==> (r.items[i].selected <==> IsMatch(nf, e.items[i], rule))
  {
    var lit := Lit(nf, e.items, rule);
    var ids := IdsOf(GetMatches(nf, lit, rule));
    var r := HighlightMatches(nf, e, rule, true).0;
    assert r == EditorState.SelectMultiple(e.(items := lit), ids);
    forall i | 0 <= i < |e.items| ensures r.items[i].selected <==> IsMatch(nf, e.items[i], rule) {
      assert IsMatch(nf, lit[i], rule) <==> IsMatch(nf, e.items[i], rule);
      MatchIdOnlyFor(nf, lit, rule, i);
    }
  }

  /** With unique ids an item's id is among the matches' ids exactly when it matches. */
  lemma MatchIdOnlyFor(nf: Numerics, items: seq<Item>, rule: Rule, i: nat)
    requires EditorState.UniqueIds(items) && i < |items|
    ensures items[i].id in IdsOf(GetMatches(nf, items, rule)) <==> IsMatch(nf, items[i], rule)
  {
    var ms := GetMatches(nf, items, rule);
    var ids := IdsOf(ms);
    if items[i].id in ids {
      var k :| 0 <= k < |ids| && ids[k] == items[i].id;
      var j :| 0 <= j < |items| && items[j] == ms[k];
      assert items[j].id == items[i].id;
      assert j == i;
    }
    if IsMatch(nf, items[i], rule) {
      var k :| 0 <= k < |ms| && ms[k] == items[i];
      assert ids[k] == items[i].id;
    }
  }
}
