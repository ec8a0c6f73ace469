/** `PathData.ToPoints`: the endpoints of the simple `M`/`L`/`Q`/`C` paths the editor
    itself writes, read from whitespace-separated tokens. */
module PathData {
  import opened Text
  import opened Core

  /** The separators `ToPoints` splits on. */
  const PathSeparators: set<char> := {' ', '\t', '\r', '\n'}

  /** Number of arguments of a command token; only the exact tokens "M", "L", "Q" and
      "C" are commands, everything else counts 0. */
  function ArgCount(tok: string): nat {
    if tok == "M" || tok == "L" then 2
    else if tok == "Q" then 4
    else if tok == "C" then 6
    else 0
  }

  /** The endpoint of every command whose last two arguments parse: a recognised command
      consumes itself and its arguments, any other token (or a command whose endpoint
      does not parse, or lacks arguments) is skipped alone. */
  function Endpoints(nf: Numerics, toks: seq<string>): (pts: seq<Point>)
    ensures |pts| <= |toks|
    decreases |toks|
  {
    if |toks| == 0 then []
    else
      var k := ArgCount(toks[0]);
      if k > 0 && k < |toks| && nf.parse(toks[k - 1]).Some? && nf.parse(toks[k]).Some? then
        [Point(nf.parse(toks[k - 1]).value, nf.parse(toks[k]).value)] + Endpoints(nf, toks[k + 1..])
      else Endpoints(nf, toks[1..])
  }

  /** Number of command tokens in a token list. */
  function CommandCount(toks: seq<string>): nat {
    if |toks| == 0 then 0 else (if ArgCount(toks[0]) > 0 then 1 else 0) + CommandCount(toks[1..])
  }

  lemma {:induction false} CommandCountAppend(a: seq<string>, b: seq<string>)
    ensures CommandCount(a + b) == CommandCount(a) + CommandCount(b)
  {
    if |a| == 0 {
      assert a + b == b;
    } else {
      assert (a + b)[1..] == a[1..] + b;
      CommandCountAppend(a[1..], b);
    }
  }

  lemma CommandCountDrop(toks: seq<string>, n: nat)
    requires n <= |toks|
    ensures CommandCount(toks[n..]) <= CommandCount(toks)
  {
    assert toks == toks[..n] + toks[n..];
    CommandCountAppend(toks[..n], toks[n..]);
  }

  /** Every endpoint is produced by a distinct command token. */
  lemma {:induction false} EndpointsAtMostCommands(nf: Numerics, toks: seq<string>)
    ensures |Endpoints(nf, toks)| <= CommandCount(toks)
    decreases |toks|
  {
    if |toks| > 0 {
      var k := ArgCount(toks[0]);
      EndpointsAtMostCommands(nf, toks[1..]);
      if k > 0 && k < |toks| && nf.parse(toks[k - 1]).Some? && nf.parse(toks[k]).Some? {
        EndpointsAtMostCommands(nf, toks[k + 1..]);
        CommandCountDrop(toks[1..], k);
        assert toks[1..][k..] == toks[k + 1..];
      }
    }
  }

  /** `ToPoints(d)`: nothing for a blank string, otherwise the endpoints of its tokens. */
  function ToPoints(nf: Numerics, d: string): (pts: seq<Point>)
    ensures IsBlank(d) ==> pts == []
    ensures |pts| <= CommandCount(Words(d, PathSeparators))
  {
    if IsBlank(d) then []
    else
      EndpointsAtMostCommands(nf, Words(d, PathSeparators));
      Endpoints(nf, Words(d, PathSeparators))
  }
}
