/** Splitting text on '|' into its non-empty pieces: the meaning of a strtok
    scan with delimiter "|", and the laws that the flag parser inherits. */
module Tokenizer {

  /** Where the '|'-free stretch that begins at `i` ends. */
  function RunEnd(s: string, i: nat): (e: nat)
    requires i <= |s|
    ensures i <= e <= |s|
    ensures forall k :: i <= k < e ==> s[k] != '|'
    ensures e < |s| ==> s[e] == '|'
    decreases |s| - i
  {
    if i == |s| || s[i] == '|' then i else RunEnd(s, i + 1)
  }

  /** The non-empty pieces between '|' characters of the text from `i` on. */
  function TokensFrom(s: string, i: nat): (ts: seq<string>)
    requires i <= |s|
    decreases |s| - i
  {
    if i == |s| then []
    else if s[i] == '|' then TokensFrom(s, i + 1)
    else
      var e := RunEnd(s, i);
      [s[i..e]] + TokensFrom(s, e)
  }

  function Tokens(s: string): (ts: seq<string>) {
    TokensFrom(s, 0)
  }

  // ---------------------------------------------------------------------
  // Tokens are exactly the maximal '|'-free stretches
  // ---------------------------------------------------------------------

  /** s[a..b] is non-empty, '|'-free, and cannot be extended on either side. */
  ghost predicate IsMaximalRun(s: string, a: int, b: int) {
    && 0 <= a < b <= |s|
    && (forall k :: a <= k < b ==> s[k] != '|')
    && (a > 0 ==> s[a - 1] == '|')
    && (b < |s| ==> s[b] == '|')
  }

  /** Where each token of the text from `i` on begins and ends. */
  function Spans(s: string, i: nat): (spans: seq<(int, int)>)
    requires i <= |s|
    decreases |s| - i
  {
    if i == |s| then []
    else if s[i] == '|' then Spans(s, i + 1)
    else
      var e := RunEnd(s, i);
      [(i, e)] + Spans(s, e)
  }

  ghost predicate AreSlices(s: string, spans: seq<(int, int)>, ts: seq<string>) {
    && |spans| == |ts|
    && forall k :: 0 <= k < |spans| ==>
         0 <= spans[k].0 < spans[k].1 <= |s| && ts[k] == s[spans[k].0..spans[k].1]
  }

  lemma {:induction false} TokensAreSpans(s: string, i: nat)
    requires i <= |s|
    ensures AreSlices(s, Spans(s, i), TokensFrom(s, i))
    decreases |s| - i
  {
    if i == |s| {
    } else if s[i] == '|' {
      TokensAreSpans(s, i + 1);
    } else {
      TokensAreSpans(s, RunEnd(s, i));
    }
  }

  /** Spans come from left to right, with at least one '|' between neighbours. */
  lemma {:induction false} SpansAscend(s: string, i: nat)
    requires i <= |s|
    ensures forall k :: 0 <= k < |Spans(s, i)| ==> i <= Spans(s, i)[k].0 < Spans(s, i)[k].1
    ensures i < |s| && s[i] == '|' ==> forall k :: 0 <= k < |Spans(s, i)| ==> i < Spans(s, i)[k].0
    ensures forall j, k :: 0 <= j < k < |Spans(s, i)| ==> Spans(s, i)[j].1 < Spans(s, i)[k].0
    decreases |s| - i
  {
    if i == |s| {
    } else if s[i] == '|' {
      SpansAscend(s, i + 1);
    } else {
      SpansAscend(s, RunEnd(s, i));
    }
  }

  lemma FirstRun(s: string, i: nat, e: nat, a: int, b: int)
    requires i < e <= |s| && (i == 0 || s[i - 1] == '|')
    requires forall k :: i <= k < e ==> s[k] != '|'
    requires e < |s| ==> s[e] == '|'
    ensures i <= a < e && IsMaximalRun(s, a, b) <==> (a, b) == (i, e)
  {
  }

  lemma {:induction false} SpansAreRuns(s: string, i: nat, a: int, b: int)
    requires i <= |s| && (i == 0 || i == |s| || s[i - 1] == '|' || s[i] == '|')
    ensures (a, b) in Spans(s, i) <==> i <= a && IsMaximalRun(s, a, b)
    decreases |s| - i
  {
    if i == |s| {
    } else if s[i] == '|' {
      SpansAreRuns(s, i + 1, a, b);
    } else {
      var e := RunEnd(s, i);
      FirstRun(s, i, e, a, b);
      SpansAreRuns(s, e, a, b);
    }
  }

  /** The scan visits exactly the maximal '|'-free stretches, each once and
      from left to right. */
  lemma TokensAreMaximalRuns(s: string)
    ensures AreSlices(s, Spans(s, 0), Tokens(s))
    ensures forall j, k :: 0 <= j < k < |Spans(s, 0)| ==> Spans(s, 0)[j].1 < Spans(s, 0)[k].0
    ensures forall a, b :: (a, b) in Spans(s, 0) <==> IsMaximalRun(s, a, b)
  {
    TokensAreSpans(s, 0);
    SpansAscend(s, 0);
    forall a, b
      ensures (a, b) in Spans(s, 0) <==> IsMaximalRun(s, a, b)
    {
      SpansAreRuns(s, 0, a, b);
    }
  }

  // ---------------------------------------------------------------------
  // Tokens of composed texts
  // ---------------------------------------------------------------------

  lemma {:induction false} RunEndShifts(s: string, t: string, i: nat)
    requires i <= |t|
    ensures RunEnd(s + t, |s| + i) == |s| + RunEnd(t, i)
    decreases |t| - i
  {
    if i < |t| && t[i] != '|' {
      RunEndShifts(s, t, i + 1);
    }
  }

  lemma BarSkipped(s: string, i: nat)
    requires i < |s| && s[i] == '|'
    ensures TokensFrom(s, i) == TokensFrom(s, i + 1)
  {
  }

  lemma RunTaken(s: string, i: nat, e: nat)
    requires i < e <= |s| && s[i] != '|' && e == RunEnd(s, i)
    ensures TokensFrom(s, i) == [s[i..e]] + TokensFrom(s, e)
  {
  }

  lemma BarShifts(s: string, t: string, i: nat)
    requires i < |t| && t[i] == '|'
    requires TokensFrom(s + t, |s| + (i + 1)) == TokensFrom(t, i + 1)
    ensures TokensFrom(s + t, |s| + i) == TokensFrom(t, i)
  {
    assert (s + t)[|s| + i] == t[i];
    BarSkipped(s + t, |s| + i);
    BarSkipped(t, i);
  }

  lemma SliceShifts(s: string, t: string, i: nat, e: nat)
    requires i < e <= |t|
    ensures (s + t)[|s| + i] == t[i] && (s + t)[|s| + i..|s| + e] == t[i..e]
  {
  }

  lemma RunShifts(s: string, t: string, i: nat, e: nat)
    requires i < e <= |t| && t[i] != '|' && e == RunEnd(t, i)
    requires TokensFrom(s + t, |s| + e) == TokensFrom(t, e)
    ensures TokensFrom(s + t, |s| + i) == TokensFrom(t, i)
  {
    SliceShifts(s, t, i, e);
    RunEndShifts(s, t, i);
    RunTaken(s + t, |s| + i, |s| + e);
    RunTaken(t, i, e);
  }

  lemma {:induction false} TokensShift(s: string, t: string, i: nat)
    requires i <= |t|
    ensures TokensFrom(s + t, |s| + i) == TokensFrom(t, i)
    decreases |t| - i
  {
    if i < |t| {
      if t[i] == '|' {
        TokensShift(s, t, i + 1);
        BarShifts(s, t, i);
      } else {
        var e := RunEnd(t, i);
        TokensShift(s, t, e);
        RunShifts(s, t, i, e);
      }
    }
  }

  /** Text that begins with '|' does not disturb the runs before it. */
  lemma {:induction false} RunEndOfPrefix(s: string, t: string, i: nat)
    requires i <= |s| && (t == [] || t[0] == '|')
    ensures RunEnd(s + t, i) == RunEnd(s, i)
    decreases |s| - i
  {
    if i < |s| && s[i] != '|' {
      RunEndOfPrefix(s, t, i + 1);
    }
  }

  lemma BarSplits(s: string, t: string, i: nat)
    requires i < |s| && s[i] == '|'
    requires TokensFrom(s + t, i + 1) == TokensFrom(s, i + 1) + TokensFrom(t, 0)
    ensures TokensFrom(s + t, i) == TokensFrom(s, i) + TokensFrom(t, 0)
  {
    BarSkipped(s + t, i);
    BarSkipped(s, i);
  }

  lemma RunSplits(s: string, t: string, i: nat, e: nat)
    requires i < e <= |s| && s[i] != '|' && e == RunEnd(s, i) && (t == [] || t[0] == '|')
    requires TokensFrom(s + t, e) == TokensFrom(s, e) + TokensFrom(t, 0)
    ensures TokensFrom(s + t, i) == TokensFrom(s, i) + TokensFrom(t, 0)
  {
    RunEndOfPrefix(s, t, i);
    RunTaken(s + t, i, e);
    RunTaken(s, i, e);
    assert (s + t)[i..e] == s[i..e];
  }

  lemma {:induction false} TokensSplit(s: string, t: string, i: nat)
    requires i <= |s| && (t == [] || t[0] == '|')
    ensures TokensFrom(s + t, i) == TokensFrom(s, i) + TokensFrom(t, 0)
    decreases |s| - i
  {
    if i == |s| {
      TokensShift(s, t, 0);
    } else if s[i] == '|' {
      TokensSplit(s, t, i + 1);
      BarSplits(s, t, i);
    } else {
      var e := RunEnd(s, i);
      TokensSplit(s, t, e);
      RunSplits(s, t, i, e);
    }
  }

  /** A '|' between two texts separates their tokens completely. */
  lemma TokensOfConcat(s: string, t: string)
    ensures Tokens(s + "|" + t) == Tokens(s) + Tokens(t)
  {
    var bar: string := "|";
    var tail := bar + t;
    assert s + bar + t == s + tail;
    TokensSplit(s, tail, 0);
    assert tail[0] == '|' && |bar| == 1;
    assert TokensFrom(tail, 0) == TokensFrom(tail, 1);
    TokensShift(bar, t, 0);
  }

  lemma {:induction false} RunEndOfWord(w: string, i: nat)
    requires i <= |w| && '|' !in w
    ensures RunEnd(w, i) == |w|
    decreases |w| - i
  {
  }

  /** A non-empty text without '|' is its own single token. */
  lemma TokensOfWord(w: string)
    requires w != [] && '|' !in w
    ensures Tokens(w) == [w]
  {
    RunEndOfWord(w, 0);
    assert w[0] in w && w[0..|w|] == w;
    assert TokensFrom(w, |w|) == [];
  }

  /** Pieces with a '|' between neighbours. */
  function Joined(pieces: seq<string>): string {
    if pieces == [] then ""
    else if |pieces| == 1 then pieces[0]
    else pieces[0] + "|" + Joined(pieces[1..])
  }

  function NonEmpty(pieces: seq<string>): seq<string> {
    if pieces == [] then []
    else (if pieces[0] == [] then [] else [pieces[0]]) + NonEmpty(pieces[1..])
  }

  /** Scanning undoes joining, except that empty pieces leave no trace. */
  lemma {:induction false} TokensOfJoined(pieces: seq<string>)
    requires forall k :: 0 <= k < |pieces| ==> '|' !in pieces[k]
    ensures Tokens(Joined(pieces)) == NonEmpty(pieces)
  {
    if pieces != [] {
      if pieces[0] != [] {
        TokensOfWord(pieces[0]);
      }
      if |pieces| > 1 {
        TokensOfConcat(pieces[0], Joined(pieces[1..]));
        TokensOfJoined(pieces[1..]);
      }
    }
  }
}
