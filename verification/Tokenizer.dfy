/** The delimiter-driven tokenizer shared by every command parser. */
module Tokenizer {

  /** `std::string::npos`. */
  const NPOS := -1

  function FindFirstOf(s: string, chars: string, from: int): (p: int)
    requires from == NPOS || 0 <= from <= |s|
    ensures p == NPOS || (0 <= from <= p < |s| && s[p] in chars)
    decreases |s| - from
  {
    if from == NPOS || from == |s| then NPOS
    else if s[from] in chars then from
    else FindFirstOf(s, chars, from + 1)
  }

  function FindFirstNotOf(s: string, chars: string, from: int): (p: int)
    requires from == NPOS || 0 <= from <= |s|
    ensures p == NPOS || (0 <= from <= p < |s| && s[p] !in chars)
    decreases |s| - from
  {
    if from == NPOS || from == |s| then NPOS
    else if s[from] !in chars then from
    else FindFirstNotOf(s, chars, from + 1)
  }

  // ----- specification -----

  predicate Free(s: string, delims: string) {
    forall i :: 0 <= i < |s| ==> s[i] !in delims
  }

  /** Length of the delimiter-free run at the front of the text. */
  function RunLength(s: string, delims: string): (k: nat)
    ensures k <= |s|
    ensures k < |s| ==> s[k] in delims
    ensures s != "" && s[0] !in delims ==> k > 0
  {
    if s == "" || s[0] in delims then 0 else 1 + RunLength(s[1..], delims)
  }

  function Tokens(s: string, delims: string): seq<string> {
    if s == "" then []
    else if s[0] in delims then Tokens(s[1..], delims)
    else [s[..RunLength(s, delims)]] + Tokens(s[RunLength(s, delims)..], delims)
  }

  /** The tokens still to come when the next one starts at `p`. */
  ghost function Remaining(s: string, delims: string, p: int): seq<string>
    requires p == NPOS || 0 <= p <= |s|
  {
    if p == NPOS then [] else Tokens(s[p..], delims)
  }

  // ----- the loop -----

  /** Jumping over delimiters loses no token. */
  lemma {:induction false} SkipDelims(s: string, delims: string, from: nat)
    requires from <= |s|
    ensures Tokens(s[from..], delims) == Remaining(s, delims, FindFirstNotOf(s, delims, from))
    decreases |s| - from
  {
    if from < |s| && s[from] in delims {
      assert s[from..][1..] == s[from + 1..];
      SkipDelims(s, delims, from + 1);
    }
  }

  /** Where the token at `from` ends. */
  function TokenEnd(s: string, delims: string, from: nat): (end: int)
    requires from <= |s|
    ensures from <= end <= |s|
  {
    if FindFirstOf(s, delims, from) == NPOS then |s| else FindFirstOf(s, delims, from)
  }

  lemma {:induction false} RunLengthAt(s: string, delims: string, from: nat)
    requires from <= |s|
    ensures from + RunLength(s[from..], delims) == TokenEnd(s, delims, from)
    decreases |s| - from
  {
    if from < |s| && s[from] !in delims {
      assert s[from..][1..] == s[from + 1..];
      RunLengthAt(s, delims, from + 1);
    }
  }

  lemma {:induction false} TokenAt(s: string, delims: string, from: nat, to: int)
    requires from < |s| && s[from] !in delims && to == from + RunLength(s[from..], delims)
    ensures Tokens(s[from..], delims) == [s[from..to]] + Tokens(s[to..], delims)
  {
    var t, k := s[from..], RunLength(s[from..], delims);
    assert t[..k] == s[from..to] && t[k..] == s[to..];
  }

  lemma {:induction false} CutToken(s: string, delims: string, from: nat)
    requires from < |s| && s[from] !in delims
    ensures var end := TokenEnd(s, delims, from);
            Tokens(s[from..], delims) == [s[from..end]] + Tokens(s[end..], delims)
  {
    RunLengthAt(s, delims, from);
    TokenAt(s, delims, from, TokenEnd(s, delims, from));
  }

  lemma {:induction false} NextToken(s: string, delims: string, from: nat, to: int)
    requires from < |s| && s[from] !in delims && to == FindFirstOf(s, delims, from)
    ensures Remaining(s, delims, from)
         == [s[from..TokenEnd(s, delims, from)]] + Remaining(s, delims, FindFirstNotOf(s, delims, to))
  {
    CutToken(s, delims, from);
    if to != NPOS {
      SkipDelims(s, delims, to);
    }
  }

  /** Appends the tokens of `str` to the caller's collection and returns its new size. */
  method SafeTokenize(collection: seq<string>, str: string, delims: string)
    returns (result: seq<string>, count: nat)
    ensures result == collection + Tokens(str, delims)
    ensures count == |result|
  {
    result := collection;
    var lastPos := FindFirstNotOf(str, delims, 0);
    var pos := FindFirstOf(str, delims, lastPos);
    SkipDelims(str, delims, 0);
    assert str[0..] == str;
    while pos != NPOS || lastPos != NPOS
      invariant lastPos == NPOS || 0 <= lastPos < |str|
      invariant lastPos != NPOS ==> str[lastPos] !in delims
      invariant pos == FindFirstOf(str, delims, lastPos)
      invariant result + Remaining(str, delims, lastPos) == collection + Tokens(str, delims)
      decreases if lastPos == NPOS then 0 else |str| - lastPos
    {
      NextToken(str, delims, lastPos, pos);
      var fstr := str[lastPos..if pos == NPOS then |str| else pos];
      result := result + [fstr];
      lastPos := FindFirstNotOf(str, delims, pos);
      pos := FindFirstOf(str, delims, lastPos);
    }
    count := |result|;
  }

  // ----- what the token list means -----

  lemma {:induction false} RunLengthPrefix(a: string, d: char, b: string, delims: string)
    requires d in delims
    ensures RunLength(a + [d] + b, delims) == RunLength(a, delims)
  {
    if a != "" && a[0] !in delims {
      assert (a + [d] + b)[1..] == a[1..] + [d] + b;
      RunLengthPrefix(a[1..], d, b, delims);
    }
  }

  lemma {:induction false} CutInFront(a: string, b: string, k: nat)
    requires 0 < |a| && k <= |a|
    ensures (a + b)[0] == a[0] && (a + b)[..k] == a[..k] && (a + b)[k..] == a[k..] + b
  {
  }

  lemma {:induction false} RunThenSplit(a: string, d: char, b: string, delims: string)
    requires d in delims && a != "" && a[0] !in delims
    requires var t := a[RunLength(a, delims)..];
             Tokens(t + [d] + b, delims) == Tokens(t, delims) + Tokens(b, delims)
    ensures Tokens(a + [d] + b, delims) == Tokens(a, delims) + Tokens(b, delims)
  {
    var s, k := a + [d] + b, RunLength(a, delims);
    RunLengthPrefix(a, d, b, delims);
    CutInFront(a, [d] + b, k);
    assert s == a + ([d] + b) && a[k..] + ([d] + b) == a[k..] + [d] + b;
    FirstToken(s, delims);
    FirstToken(a, delims);
  }

  lemma {:induction false} FirstToken(s: string, delims: string)
    requires s != "" && s[0] !in delims
    ensures var k := RunLength(s, delims);
            Tokens(s, delims) == [s[..k]] + Tokens(s[k..], delims)
  {
  }

  /** Splitting at any delimiter splits the token list. Together with `TokensSingle` and the empty
      text this determines the tokens of every text. */
  lemma {:induction false} TokensSplit(a: string, d: char, b: string, delims: string)
    requires d in delims
    ensures Tokens(a + [d] + b, delims) == Tokens(a, delims) + Tokens(b, delims)
    decreases |a|
  {
    var s := a + [d] + b;
    if a == "" {
      assert s[1..] == b;
    } else if a[0] in delims {
      assert s[1..] == a[1..] + [d] + b;
      TokensSplit(a[1..], d, b, delims);
    } else {
      TokensSplit(a[RunLength(a, delims)..], d, b, delims);
      RunThenSplit(a, d, b, delims);
    }
  }

  lemma {:induction false} TokensSingle(t: string, delims: string)
    requires t != "" && Free(t, delims)
    ensures Tokens(t, delims) == [t]
  {
    assert RunLength(t, delims) == |t|;
    assert t[..|t|] == t && t[|t|..] == "";
  }

  /** A text that begins with `gaps[0]`, and in which `gaps[k + 1]` follows `tokens[k]`. */
  function JoinWith(tokens: seq<string>, gaps: seq<string>): string
    requires |gaps| == |tokens| + 1
  {
    if tokens == [] then gaps[0] else gaps[0] + (tokens[0] + JoinWith(tokens[1..], gaps[1..]))
  }

  predicate AllDelims(s: string, delims: string) {
    forall i :: 0 <= i < |s| ==> s[i] in delims
  }

  /** Gaps of delimiters only; the ones between two tokens are not empty. */
  predicate Separates(gaps: seq<string>, delims: string) {
    && (forall k :: 0 <= k < |gaps| ==> AllDelims(gaps[k], delims))
    && (forall k :: 0 < k < |gaps| - 1 ==> gaps[k] != "")
  }

  lemma {:induction false} DropDelims(gap: string, s: string, delims: string)
    requires AllDelims(gap, delims)
    ensures Tokens(gap + s, delims) == Tokens(s, delims)
  {
    if gap == "" {
      assert gap + s == s;
    } else {
      assert (gap + s)[1..] == gap[1..] + s;
      DropDelims(gap[1..], s, delims);
    }
  }

  lemma {:induction false} TokenThen(t: string, rest: string, delims: string)
    requires t != "" && Free(t, delims) && (rest == "" || rest[0] in delims)
    ensures Tokens(t + rest, delims) == [t] + Tokens(rest, delims)
  {
    TokensSingle(t, delims);
    if rest == "" {
      assert t + rest == t;
    } else {
      assert t + rest == t + [rest[0]] + rest[1..];
      TokensSplit(t, rest[0], rest[1..], delims);
    }
  }

  /** Tokenizing undoes joining, whatever delimiters stand between and around the tokens. */
  lemma {:induction false} TokenizeJoin(tokens: seq<string>, gaps: seq<string>, delims: string)
    requires |gaps| == |tokens| + 1 && Separates(gaps, delims)
    requires forall k :: 0 <= k < |tokens| ==> tokens[k] != "" && Free(tokens[k], delims)
    ensures Tokens(JoinWith(tokens, gaps), delims) == tokens
  {
    if tokens == [] {
      DropDelims(gaps[0], "", delims);
      assert gaps[0] + "" == gaps[0];
    } else {
      var rest := JoinWith(tokens[1..], gaps[1..]);
      assert rest == "" || rest[0] in delims by {
        assert AllDelims(gaps[1], delims);
      }
      TokenizeJoin(tokens[1..], gaps[1..], delims);
      TokenThen(tokens[0], rest, delims);
      DropDelims(gaps[0], tokens[0] + rest, delims);
    }
  }

  /** A maximal delimiter-free run starts at `i`. */
  predicate RunStarts(s: string, delims: string, i: int) {
    0 <= i < |s| && s[i] !in delims && (i == 0 || s[i - 1] in delims)
  }

  /** Looks at every position from `from` on and lists the runs that start there. */
  function MaximalRuns(s: string, delims: string, from: nat): seq<string>
    requires from <= |s|
    decreases |s| - from
  {
    if from == |s| then []
    else if RunStarts(s, delims, from)
    then [s[from..from + RunLength(s[from..], delims)]] + MaximalRuns(s, delims, from + 1)
    else MaximalRuns(s, delims, from + 1)
  }

  /** No run starts inside a run. */
  lemma {:induction false} InsideRun(s: string, delims: string, from: nat, to: int)
    requires from < to <= |s| && s[from] !in delims && to <= from + RunLength(s[from..], delims)
    ensures MaximalRuns(s, delims, from + 1) == MaximalRuns(s, delims, to)
    decreases |s| - from
  {
    assert s[from..][1..] == s[from + 1..];
    if from + 1 < to {
      InsideRun(s, delims, from + 1, to);
    }
  }

  /** A run that starts here comes first, and the next one behind its end. */
  lemma {:induction false} RunFirst(s: string, delims: string, from: nat, to: int)
    requires RunStarts(s, delims, from) && to == from + RunLength(s[from..], delims)
    ensures from < to <= |s| && MaximalRuns(s, delims, from) == [s[from..to]] + MaximalRuns(s, delims, from + 1)
  {
  }

  lemma {:induction false} RunsFrom(s: string, delims: string, from: nat)
    requires from <= |s|
    requires from == 0 || from == |s| || s[from] in delims || s[from - 1] in delims
    ensures Tokens(s[from..], delims) == MaximalRuns(s, delims, from)
    decreases |s| - from
  {
    if from < |s| {
      if s[from] in delims {
        assert s[from..][1..] == s[from + 1..];
        RunsFrom(s, delims, from + 1);
      } else {
        var to := from + RunLength(s[from..], delims);
        RunFirst(s, delims, from, to);
        InsideRun(s, delims, from, to);
        RunsFrom(s, delims, to);
        TokenAt(s, delims, from, to);
      }
    }
  }

  /** The tokens of a text are exactly its maximal delimiter-free runs, from left to right. */
  lemma {:induction false} TokensAreMaximalRuns(s: string, delims: string)
    ensures Tokens(s, delims) == MaximalRuns(s, delims, 0)
  {
    RunsFrom(s, delims, 0);
    assert s[0..] == s;
  }
}
