/** Character classes and the handful of .NET string operations the editor relies on:
    whitespace tests, trimming, prefix tests, ordinal case-insensitive comparison and
    `String.Split(separators, RemoveEmptyEntries)`. */
module Text {

  /** `char.IsWhiteSpace`: the Unicode space separators, line and paragraph separators,
      the C0 controls U+0009..U+000D and U+0085. */
  predicate IsWhiteSpace(c: char) {
    || c == ' ' || ('\U{0009}' <= c <= '\U{000D}') || c == '\U{0085}' || c == '\U{00A0}'
    || c == '\U{1680}' || ('\U{2000}' <= c <= '\U{200A}') || c == '\U{2028}' || c == '\U{2029}'
    || c == '\U{202F}' || c == '\U{205F}' || c == '\U{3000}'
  }

  predicate IsUpper(c: char) { 'A' <= c <= 'Z' }

  predicate IsLower(c: char) { 'a' <= c <= 'z' }

  /** `char.IsLetter`, restricted to ASCII letters. */
  predicate IsLetter(c: char) { IsUpper(c) || IsLower(c) }

  /** `char.IsDigit`, restricted to ASCII digits. */
  predicate IsDigit(c: char) { '0' <= c <= '9' }

  function ToUpper(c: char): (u: char)
    ensures IsLower(c) ==> IsUpper(u) && u as int == c as int - 32
    ensures !IsLower(c) ==> u == c
  {
    if IsLower(c) then (c as int - 32) as char else c
  }

  function ToLower(c: char): (l: char)
    ensures IsUpper(c) ==> IsLower(l) && l as int == c as int + 32
    ensures !IsUpper(c) ==> l == c
  {
    if IsUpper(c) then (c as int + 32) as char else c
  }

  function LowerString(s: string): (r: string)
    ensures |r| == |s|
    ensures forall i :: 0 <= i < |s| ==> r[i] == ToLower(s[i])
  {
    if |s| == 0 then "" else [ToLower(s[0])] + LowerString(s[1..])
  }

  /** `string.IsNullOrWhiteSpace` for a non-null string. */
  predicate IsBlank(s: string) {
    forall i :: 0 <= i < |s| ==> IsWhiteSpace(s[i])
  }

  function TrimStart(s: string): (r: string)
    ensures |r| <= |s| && r == s[|s| - |r|..]
    ensures |r| > 0 ==> !IsWhiteSpace(r[0])
    ensures forall i :: 0 <= i < |s| - |r| ==> IsWhiteSpace(s[i])
  {
    if |s| > 0 && IsWhiteSpace(s[0]) then TrimStart(s[1..]) else s
  }

  function TrimEnd(s: string): (r: string)
    ensures |r| <= |s| && r == s[..|r|]
    ensures |r| > 0 ==> !IsWhiteSpace(r[|r| - 1])
    ensures forall i :: |r| <= i < |s| ==> IsWhiteSpace(s[i])
  {
    if |s| > 0 && IsWhiteSpace(s[|s| - 1]) then TrimEnd(s[..|s| - 1]) else s
  }

  /** `string.Trim()`. */
  function Trim(s: string): string {
    TrimEnd(TrimStart(s))
  }

  predicate StartsWith(s: string, prefix: string) {
    |prefix| <= |s| && s[..|prefix|] == prefix
  }

  /** Ordinal case-insensitive character equality (ASCII case folding). */
  predicate SameIgnoringCase(a: char, b: char) {
    ToUpper(a) == ToUpper(b)
  }

  /** `string.Equals(a, b, StringComparison.OrdinalIgnoreCase)`. */
  predicate EqualsIgnoreCase(a: string, b: string) {
    |a| == |b| && forall i :: 0 <= i < |a| ==> SameIgnoringCase(a[i], b[i])
  }

  /** `s.StartsWith(prefix, StringComparison.OrdinalIgnoreCase)`. */
  predicate StartsWithIgnoreCase(s: string, prefix: string) {
    |prefix| <= |s| && EqualsIgnoreCase(s[..|prefix|], prefix)
  }

  /** Number of characters of `s` that belong to `cs`. */
  function CountOf(s: string, cs: set<char>): (n: nat)
    ensures n <= |s|
  {
    if |s| == 0 then 0 else (if s[0] in cs then 1 else 0) + CountOf(s[1..], cs)
  }

  lemma {:induction false} CountOfAppend(a: string, b: string, cs: set<char>)
    ensures CountOf(a + b, cs) == CountOf(a, cs) + CountOf(b, cs)
  {
    if |a| == 0 {
      assert a + b == b;
    } else {
      assert (a + b)[1..] == a[1..] + b;
      CountOfAppend(a[1..], b, cs);
    }
  }

  // ---------------------------------------------------------------------------
  // String.Split(separators, StringSplitOptions.RemoveEmptyEntries)
  // ---------------------------------------------------------------------------

  /** A word: a non-empty string containing none of the separators. */
  predicate IsWord(w: string, seps: set<char>) {
    |w| > 0 && forall i :: 0 <= i < |w| ==> w[i] !in seps
  }

  /** Length of the longest prefix of `s` that holds no separator. */
  function WordLength(s: string, seps: set<char>): (n: nat)
    ensures n <= |s|
    ensures forall i :: 0 <= i < n ==> s[i] !in seps
    ensures n < |s| ==> s[n] in seps
  {
    if |s| == 0 || s[0] in seps then 0 else 1 + WordLength(s[1..], seps)
  }

  /** The non-empty pieces of `s` between separators, in order. */
  function Words(s: string, seps: set<char>): (ws: seq<string>)
    ensures forall k :: 0 <= k < |ws| ==> IsWord(ws[k], seps)
    decreases |s|
  {
    if |s| == 0 then []
    else if s[0] in seps then Words(s[1..], seps)
    else
      var n := WordLength(s, seps);
      [s[..n]] + Words(s[n..], seps)
  }

  lemma WordsOfSeparator(c: char, s: string, seps: set<char>)
    requires c in seps
    ensures Words([c] + s, seps) == Words(s, seps)
  {
    assert ([c] + s)[1..] == s;
  }

  lemma WordLengthOfWord(w: string, s: string, seps: set<char>)
    requires IsWord(w, seps)
    requires |s| == 0 || s[0] in seps
    ensures WordLength(w + s, seps) == |w|
    decreases |w|
  {
    if |w| > 1 {
      assert (w + s)[1..] == w[1..] + s;
      WordLengthOfWord(w[1..], s, seps);
    } else {
      assert (w + s)[1..] == s;
    }
  }

  /** A word followed by a separator (or by nothing) is split off whole. */
  lemma WordsOfWord(w: string, s: string, seps: set<char>)
    requires IsWord(w, seps)
    requires |s| == 0 || s[0] in seps
    ensures Words(w + s, seps) == [w] + Words(s, seps)
  {
    WordLengthOfWord(w, s, seps);
    assert (w + s)[..|w|] == w;
    assert (w + s)[|w|..] == s;
  }

  /** `" " + w + rest` splits into `w` followed by the words of `rest`. */
  lemma WordsOfSpacedWord(c: char, w: string, s: string, seps: set<char>)
    requires c in seps && IsWord(w, seps)
    requires |s| == 0 || s[0] in seps
    ensures Words([c] + w + s, seps) == [w] + Words(s, seps)
  {
    assert [c] + w + s == [c] + (w + s);
    WordsOfSeparator(c, w + s, seps);
    WordsOfWord(w, s, seps);
  }

  /** Each string followed by one space, as a `StringBuilder` fed `tok + " "` builds. */
  function SpaceAfterEach(ts: seq<string>): string {
    if |ts| == 0 then "" else ts[0] + " " + SpaceAfterEach(ts[1..])
  }

  lemma {:induction false} SpaceAfterEachAppend(a: seq<string>, b: seq<string>)
    ensures SpaceAfterEach(a + b) == SpaceAfterEach(a) + SpaceAfterEach(b)
  {
    if |a| == 0 {
      assert a + b == b;
    } else {
      assert (a + b)[1..] == a[1..] + b;
      SpaceAfterEachAppend(a[1..], b);
    }
  }

  /** The only whitespace `s` holds is the plain space. */
  predicate OnlySpaces(s: string) {
    forall i :: 0 <= i < |s| && IsWhiteSpace(s[i]) ==> s[i] == ' '
  }

  predicate NoWhiteSpace(s: string) {
    forall i :: 0 <= i < |s| ==> !IsWhiteSpace(s[i])
  }

  /** Tokens without whitespace, each followed by a space, split back into the tokens. */
  lemma {:induction false} WordsOfSpaceAfterEach(ts: seq<string>)
    requires forall k :: 0 <= k < |ts| ==> |ts[k]| > 0 && NoWhiteSpace(ts[k])
    ensures Words(SpaceAfterEach(ts), {' '}) == ts
    ensures OnlySpaces(SpaceAfterEach(ts))
    ensures |ts| > 0 ==> !IsWhiteSpace(SpaceAfterEach(ts)[0])
  {
    if |ts| > 0 {
      var w, rest := ts[0], SpaceAfterEach(ts[1..]);
      WordsOfSpaceAfterEach(ts[1..]);
      assert IsWord(w, {' '}) by {
        forall i | 0 <= i < |w| ensures w[i] !in {' '} {
          assert !IsWhiteSpace(w[i]);
        }
      }
      assert w + " " + rest == w + (" " + rest);
      WordsOfWord(w, " " + rest, {' '});
      WordsOfSeparator(' ', rest, {' '});
      assert [' '] + rest == " " + rest;
      assert ts == [w] + ts[1..];
      var s := SpaceAfterEach(ts);
      assert s == w + (" " + rest);
      forall i | 0 <= i < |s| ensures IsWhiteSpace(s[i]) ==> s[i] == ' ' {
        if i < |w| {
          assert s[i] == w[i];
        } else if i > |w| {
          assert s[i] == rest[i - |w| - 1];
        }
      }
      assert s[0] == w[0];
    }
  }

  lemma {:induction false} WordsOfTrimStart(s: string, seps: set<char>)
    requires forall i :: 0 <= i < |s| && IsWhiteSpace(s[i]) ==> s[i] in seps
    ensures Words(TrimStart(s), seps) == Words(s, seps)
    decreases |s|
  {
    if |s| > 0 && IsWhiteSpace(s[0]) {
      WordsOfTrimStart(s[1..], seps);
    }
  }

  lemma {:induction false} WordLengthBeforeSeparators(r: string, suf: string, seps: set<char>)
    requires |suf| == 0 || suf[0] in seps
    ensures WordLength(r + suf, seps) == WordLength(r, seps)
    decreases |r|
  {
    if |r| == 0 {
      assert r + suf == suf;
    } else {
      assert (r + suf)[0] == r[0];
      assert (r + suf)[1..] == r[1..] + suf;
      WordLengthBeforeSeparators(r[1..], suf, seps);
    }
  }

  lemma {:induction false} WordsOfSeparators(suf: string, seps: set<char>)
    requires forall i :: 0 <= i < |suf| ==> suf[i] in seps
    ensures Words(suf, seps) == []
    decreases |suf|
  {
    if |suf| > 0 {
      WordsOfSeparators(suf[1..], seps);
    }
  }

  /** Trailing separators add no words. */
  lemma {:induction false} WordsBeforeSeparators(r: string, suf: string, seps: set<char>)
    requires forall i :: 0 <= i < |suf| ==> suf[i] in seps
    ensures Words(r + suf, seps) == Words(r, seps)
    decreases |r|
  {
    if |r| == 0 {
      assert r + suf == suf;
      WordsOfSeparators(suf, seps);
    } else if r[0] in seps {
      assert (r + suf)[1..] == r[1..] + suf;
      WordsBeforeSeparators(r[1..], suf, seps);
    } else {
      var n := WordLength(r, seps);
      WordLengthBeforeSeparators(r, suf, seps);
      assert (r + suf)[..n] == r[..n];
      assert (r + suf)[n..] == r[n..] + suf;
      WordsBeforeSeparators(r[n..], suf, seps);
    }
  }

  lemma WordsOfTrimEnd(s: string, seps: set<char>)
    requires forall i :: 0 <= i < |s| && IsWhiteSpace(s[i]) ==> s[i] in seps
    ensures Words(TrimEnd(s), seps) == Words(s, seps)
  {
    var r := TrimEnd(s);
    var suf := s[|r|..];
    assert s == r + suf;
    forall i | 0 <= i < |suf| ensures suf[i] in seps {
      assert suf[i] == s[|r| + i];
    }
    WordsBeforeSeparators(r, suf, seps);
  }

  /** Trimming whitespace that is all separators changes no word. */
  lemma WordsOfTrim(s: string, seps: set<char>)
    requires forall i :: 0 <= i < |s| && IsWhiteSpace(s[i]) ==> s[i] in seps
    ensures Words(Trim(s), seps) == Words(s, seps)
  {
    WordsOfTrimStart(s, seps);
    var t := TrimStart(s);
    WhiteSpaceOfSuffix(s, |s| - |t|, seps);
    WordsOfTrimEnd(t, seps);
  }

  /** A suffix keeps the whitespace of the whole among the separators. */
  lemma WhiteSpaceOfSuffix(s: string, k: int, seps: set<char>)
    requires 0 <= k <= |s|
    requires forall i :: 0 <= i < |s| && IsWhiteSpace(s[i]) ==> s[i] in seps
    ensures forall i :: 0 <= i < |s[k..]| && IsWhiteSpace(s[k..][i]) ==> s[k..][i] in seps
  {
    forall i | 0 <= i < |s[k..]| ensures s[k..][i] == s[k + i] {
    }
  }

  /** The words of a string whose only whitespace is the space hold no whitespace. */
  lemma {:induction false} WordsHaveNoWhiteSpace(s: string)
    requires OnlySpaces(s)
    ensures forall k :: 0 <= k < |Words(s, {' '})| ==> NoWhiteSpace(Words(s, {' '})[k])
    decreases |s|
  {
    var ws := Words(s, {' '});
    if |s| > 0 {
      if s[0] == ' ' {
        assert OnlySpaces(s[1..]) by {
          forall i | 0 <= i < |s[1..]| && IsWhiteSpace(s[1..][i]) ensures s[1..][i] == ' ' {
            assert s[1..][i] == s[i + 1];
          }
        }
        WordsHaveNoWhiteSpace(s[1..]);
      } else {
        var n := WordLength(s, {' '});
        assert OnlySpaces(s[n..]) by {
          forall i | 0 <= i < |s[n..]| && IsWhiteSpace(s[n..][i]) ensures s[n..][i] == ' ' {
            assert s[n..][i] == s[i + n];
          }
        }
        WordsHaveNoWhiteSpace(s[n..]);
        assert NoWhiteSpace(s[..n]) by {
          forall i | 0 <= i < n ensures !IsWhiteSpace(s[..n][i]) {
            assert s[..n][i] == s[i] && s[i] != ' ';
          }
        }
        assert ws == [s[..n]] + Words(s[n..], {' '});
      }
    }
  }

  // ---------------------------------------------------------------------------
  // Words joined by single spaces
  // ---------------------------------------------------------------------------

  /** The words with one space between neighbours, as an interpolated string builds them. */
  function JoinWords(ts: seq<string>): string {
    if |ts| == 0 then "" else if |ts| == 1 then ts[0] else ts[0] + " " + JoinWords(ts[1..])
  }

  lemma {:induction false} JoinThenSpace(ts: seq<string>)
    requires |ts| > 0
    ensures JoinWords(ts) + " " == SpaceAfterEach(ts)
  {
    if |ts| > 1 {
      JoinThenSpace(ts[1..]);
      assert JoinWords(ts) + " " == ts[0] + " " + (JoinWords(ts[1..]) + " ");
    } else {
      assert ts[1..] == [];
    }
  }

  lemma {:induction false} WordsOfSpaced(ts: seq<string>, seps: set<char>)
    requires ' ' in seps && forall k :: 0 <= k < |ts| ==> IsWord(ts[k], seps)
    ensures Words(SpaceAfterEach(ts), seps) == ts
  {
    if |ts| > 0 {
      var w, rest := ts[0], SpaceAfterEach(ts[1..]);
      assert forall k :: 0 <= k < |ts| - 1 ==> ts[1..][k] == ts[k + 1];
      WordsOfSpaced(ts[1..], seps);
      assert w + " " + rest == w + ([' '] + rest);
      WordsOfWord(w, [' '] + rest, seps);
      WordsOfSeparator(' ', rest, seps);
      assert ts == [w] + ts[1..];
    }
  }

  /** Splitting words joined by spaces gives the words back. */
  lemma WordsOfJoin(ts: seq<string>, seps: set<char>)
    requires ' ' in seps && forall k :: 0 <= k < |ts| ==> IsWord(ts[k], seps)
    ensures Words(JoinWords(ts), seps) == ts
  {
    if |ts| > 0 {
      JoinThenSpace(ts);
      WordsOfSpaced(ts, seps);
      WordsBeforeSeparators(JoinWords(ts), " ", seps);
    }
  }
}
