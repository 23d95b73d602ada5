/** Mode "highlight": every token that the classifier takes for math is
    wrapped as `==$token$==`, outside the protected spans only, and the
    result is normalised once more. */
module Highlight {
  import opened Text
  import opened Scan
  import opened Partition
  import opened Normalize
  import opened Classifier

  /** Length of the run of token characters at the start of `s`. */
  function TokenRun(s: string): (n: nat)
    ensures n <= |s|
  {
    if |s| > 0 && IsTokenChar(s[0]) then 1 + TokenRun(s[1..]) else 0
  }

  lemma {:induction false} TokenRunIsMaximal(s: string)
    ensures forall i :: 0 <= i < TokenRun(s) ==> IsTokenChar(s[i])
    ensures TokenRun(s) < |s| ==> !IsTokenChar(s[TokenRun(s)])
    decreases |s|
  {
    if |s| > 0 && IsTokenChar(s[0]) {
      TokenRunIsMaximal(s[1..]);
      forall i | 1 <= i < TokenRun(s)
        ensures IsTokenChar(s[i])
      {
        assert s[i] == s[1..][i - 1];
      }
      assert TokenRun(s) < |s| ==> s[TokenRun(s)] == s[1..][TokenRun(s) - 1];
    }
  }

  /** The token pattern `[a-zA-Z0-9_\\^{}\-+=<>]+` tried at the start of
      `s`: the greedy `+` takes the whole run. */
  function TokenMatch(s: string): (r: Option<nat>)
    ensures r.Some? ==> 0 < r.value <= |s|
  {
    if TokenRun(s) > 0 then Some(TokenRun(s)) else None
  }

  /** A match is exactly a maximal token prefix, and one exists exactly
      when the text starts with a token character. */
  lemma TokenMatchIsMaximalToken(s: string, n: nat)
    ensures TokenMatch(s).Some? <==> |s| > 0 && IsTokenChar(s[0])
    ensures TokenMatch(s) == Some(n) <==>
      0 < n <= |s| && IsToken(s[..n]) && (n == |s| || !IsTokenChar(s[n]))
  {
    TokenRunIsMaximal(s);
    if 0 < n <= |s| && IsToken(s[..n]) && (n == |s| || !IsTokenChar(s[n])) {
      assert forall i :: 0 <= i < n ==> IsTokenChar(s[..n][i]);
    }
  }

  lemma TokenMatchAdvances()
    ensures Advances(TokenMatch)
  {
  }

  /** `token_pattern.sub(replace_func, part)` on a plain part. */
  function RewriteTokens(part: string): string
  {
    TokenMatchAdvances();
    SubBy(TokenMatch, ReplaceToken, part)
  }

  /** Every plain part strictly between two matches is non-empty. */
  ghost predicate MatchesApart(parts: seq<string>)
  {
    forall i :: 0 < i < |parts| - 1 && i % 2 == 0 ==> |parts[i]| > 0
  }

  lemma ApartMatchStep(t: string, rest: seq<string>)
    requires MatchesApart(rest) && (|rest| > 1 ==> |rest[0]| > 0)
    ensures MatchesApart(["", t] + rest)
  {
    var parts := ["", t] + rest;
    forall i | 0 < i < |parts| - 1 && i % 2 == 0
      ensures |parts[i]| > 0
    {
      assert parts[i] == rest[i - 2];
    }
  }

  lemma ApartPlainStep(c: char, rest: seq<string>)
    requires MatchesApart(rest) && |rest| > 0
    ensures MatchesApart([[c] + rest[0]] + rest[1..])
  {
    var parts := [[c] + rest[0]] + rest[1..];
    forall i | 0 < i < |parts| - 1 && i % 2 == 0
      ensures |parts[i]| > 0
    {
      assert parts[i] == rest[i];
    }
  }

  /** After a token the scan goes on at a character that is no token
      character, so the next plain part is not empty unless the text ends. */
  lemma AfterTokenIsPlain(part: string, n: nat)
    requires TokenMatch(part) == Some(n)
    ensures Advances(TokenMatch)
    ensures |SplitBy(TokenMatch, part[n..])| > 1 ==> |SplitBy(TokenMatch, part[n..])[0]| > 0
  {
    TokenMatchAdvances();
    TokenMatchIsMaximalToken(part, n);
    if n < |part| {
      assert part[n..][0] == part[n];
      TokenMatchIsMaximalToken(part[n..], 0);
    }
  }

  /** Two tokens of the scan are never side by side: every plain part
      between two tokens holds at least one character, because the greedy
      match has already taken every token character that follows a token. */
  lemma {:induction false} TokensApart(part: string)
    ensures Advances(TokenMatch)
    ensures MatchesApart(SplitBy(TokenMatch, part))
    decreases |part|
  {
    TokenMatchAdvances();
    if |part| > 0 {
      match TokenMatch(part)
      case Some(n) =>
        TokensApart(part[n..]);
        AfterTokenIsPlain(part, n);
        ApartMatchStep(part[..n], SplitBy(TokenMatch, part[n..]));
      case None =>
        TokensApart(part[1..]);
        ApartPlainStep(part[0], SplitBy(TokenMatch, part[1..]));
    }
  }

  /** The token scan cuts a plain part into maximal tokens (odd parts)
      separated by runs free of token characters (even parts), and the
      rewrite replaces each token by `replace_func` of it. The cuts are the
      leftmost matches of the greedy token pattern, so two tokens are never
      side by side. */
  lemma TokenScanShape(part: string)
    ensures Advances(TokenMatch)
    ensures Concat(SplitBy(TokenMatch, part)) == part
    ensures IsPartition(TokenMatch, part, SplitBy(TokenMatch, part))
    ensures OddPartsSatisfy(IsToken, SplitBy(TokenMatch, part))
    ensures EvenPartsAvoid(IsTokenChar, SplitBy(TokenMatch, part))
    ensures MatchesApart(SplitBy(TokenMatch, part))
    ensures RewriteTokens(part) == Concat(MapOdd(ReplaceToken, SplitBy(TokenMatch, part)))
  {
    TokenMatchAdvances();
    SplitJoin(TokenMatch, part);
    forall t | TokenMatch(t).Some?
      ensures IsToken(t[..TokenMatch(t).value])
    {
      TokenMatchIsMaximalToken(t, TokenMatch(t).value);
    }
    SplitMatchesSatisfy(TokenMatch, IsToken, part);
    forall t | |t| > 0 && IsTokenChar(t[0])
      ensures TokenMatch(t).Some?
    {
      TokenMatchIsMaximalToken(t, 0);
    }
    SplitPlainPartsAvoid(TokenMatch, IsTokenChar, part);
    SplitIsPartition(TokenMatch, part);
    TokensApart(part);
    SubIsMappedSplit(TokenMatch, ReplaceToken, part);
  }

  /** Text without token characters passes the rewrite unchanged. */
  lemma RewriteWithoutTokens(part: string)
    requires NoneSatisfy(IsTokenChar, part)
    ensures RewriteTokens(part) == part
  {
    TokenMatchAdvances();
    forall q | 0 <= q < |part|
      ensures TokenMatch(part[q..]).None?
    {
      assert part[q..][0] == part[q];
    }
    SubWithoutMatches(TokenMatch, ReplaceToken, part);
  }

  /** A token run never crosses a character outside the alphabet, so text
      appended after one cannot lengthen it. */
  lemma {:induction false} TokenRunStaysIn(x: string, y: string)
    requires |x| > 0 && !IsTokenChar(x[|x| - 1])
    ensures TokenRun(x + y) == TokenRun(x)
    decreases |x|
  {
    JoinHead(x, y);
    if IsTokenChar(x[0]) {
      assert x[1..][|x| - 2] == x[|x| - 1];
      TokenRunStaysIn(x[1..], y);
    }
  }

  /** Cutting after a character outside the alphabet splits no token. */
  lemma TokenMatchesStayIn(a: string, b: string)
    requires |a| > 0 && !IsTokenChar(a[|a| - 1])
    ensures MatchesStayIn(TokenMatch, a, b)
  {
    forall q | 0 <= q < |a|
      ensures TokenMatch((a + b)[q..]) == TokenMatch(a[q..])
    {
      assert (a + b)[q..] == a[q..] + b;
      assert a[q..][|a| - q - 1] == a[|a| - 1];
      TokenRunStaysIn(a[q..], b);
    }
  }

  /** The rewrite of a plain part is the rewrite of its pieces, when it is
      cut after a character outside the token alphabet. */
  lemma RewriteCut(a: string, b: string)
    requires |a| > 0 && !IsTokenChar(a[|a| - 1])
    ensures RewriteTokens(a + b) == RewriteTokens(a) + RewriteTokens(b)
  {
    TokenMatchAdvances();
    TokenMatchesStayIn(a, b);
    SubAppend(TokenMatch, ReplaceToken, a, b);
  }

  /** A character outside the token alphabet is copied by any rewrite
      driven by the token pattern. */
  lemma TokenSubSkipChar(repl: string -> string, s: string)
    requires |s| > 0 && !IsTokenChar(s[0])
    ensures Advances(TokenMatch)
    ensures SubBy(TokenMatch, repl, s) == [s[0]] + SubBy(TokenMatch, repl, s[1..])
  {
    TokenMatchAdvances();
    SubStepPlain(TokenMatch, repl, s);
  }

  /** A maximal token is handed to the replacement whole. */
  lemma TokenSubStep(repl: string -> string, w: string, rest: string)
    requires IsToken(w) && (|rest| == 0 || !IsTokenChar(rest[0]))
    ensures Advances(TokenMatch)
    ensures SubBy(TokenMatch, repl, w + rest) == repl(w) + SubBy(TokenMatch, repl, rest)
  {
    var s := w + rest;
    TokenMatchAdvances();
    assert s[..|w|] == w && s[|w|..] == rest;
    assert |w| == |s| || s[|w|] == rest[0];
    TokenMatchIsMaximalToken(s, |w|);
    SubStepMatch(TokenMatch, repl, s, |w|);
  }

  /** The first token of `t` is its maximal token prefix. */
  lemma TokenSubFirst(repl: string -> string, t: string)
    requires |t| > 0 && IsTokenChar(t[0])
    ensures 0 < TokenRun(t) <= |t| && IsToken(t[..TokenRun(t)])
    ensures TokenRun(t) == |t| || !IsTokenChar(t[TokenRun(t)])
    ensures Advances(TokenMatch)
    ensures SubBy(TokenMatch, repl, t) ==
      repl(t[..TokenRun(t)]) + SubBy(TokenMatch, repl, t[TokenRun(t)..])
  {
    TokenMatchAdvances();
    TokenMatchIsMaximalToken(t, TokenRun(t));
    SubStepMatch(TokenMatch, repl, t, TokenRun(t));
  }

  predicate NotTokenChar(c: char)
  {
    !IsTokenChar(c)
  }

  /** A run of characters outside the token alphabet is copied. */
  lemma TokenSubSkipRun(repl: string -> string, a: string, y: string)
    requires NoneSatisfy(IsTokenChar, a)
    ensures Advances(TokenMatch)
    ensures SubBy(TokenMatch, repl, a + y) == a + SubBy(TokenMatch, repl, y)
  {
    TokenMatchAdvances();
    forall t | |t| > 0 && NotTokenChar(t[0])
      ensures TokenMatch(t).None?
    {
    }
    SubSkipRun(TokenMatch, repl, NotTokenChar, a, y);
  }

  /** `seps[0] + words[0] + seps[1] + … + words[n - 1] + seps[n]` */
  function Interleave(seps: seq<string>, words: seq<string>): string
    requires |seps| == |words| + 1
    decreases |words|
  {
    if |words| == 0 then seps[0] else seps[0] + words[0] + Interleave(seps[1..], words[1..])
  }

  /** `words` are tokens and `seps` hold no token character, so each word
      is a maximal run: only the outer separators may be empty. */
  predicate Separated(seps: seq<string>, words: seq<string>)
  {
    && |seps| == |words| + 1
    && (forall i :: 0 <= i < |seps| ==> NoneSatisfy(IsTokenChar, seps[i]))
    && (forall i :: 0 < i < |words| ==> |seps[i]| > 0)
    && (forall i :: 0 <= i < |words| ==> IsToken(words[i]))
  }

  /** `repl` applied to each word. */
  function MapEach(repl: string -> string, words: seq<string>): (r: seq<string>)
    ensures |r| == |words|
    decreases |words|
  {
    if |words| == 0 then [] else [repl(words[0])] + MapEach(repl, words[1..])
  }

  lemma InterleaveFirst(seps: seq<string>, words: seq<string>)
    requires Separated(seps, words) && (|words| == 0 || |seps[0]| > 0)
    ensures |Interleave(seps, words)| == 0 || !IsTokenChar(Interleave(seps, words)[0])
  {
    if |words| > 0 {
      assert Interleave(seps, words)[0] == seps[0][0];
    }
  }

  lemma SeparatedStep(repl: string -> string, sep: string, w: string, tail: string)
    requires NoneSatisfy(IsTokenChar, sep) && IsToken(w)
    requires |tail| == 0 || !IsTokenChar(tail[0])
    ensures Advances(TokenMatch)
    ensures SubBy(TokenMatch, repl, sep + w + tail) == sep + repl(w) + SubBy(TokenMatch, repl, tail)
  {
    TokenMatchAdvances();
    var s := w + tail;
    assert s[..|w|] == w;
    assert |w| == |s| || s[|w|] == tail[0];
    TokenMatchIsMaximalToken(s, |w|);
    forall t | |t| > 0 && NotTokenChar(t[0])
      ensures TokenMatch(t).None?
    {
    }
    SubSkipThenMatch(TokenMatch, repl, NotTokenChar, sep, w, tail);
  }

  /** The token rewrite keeps every separator and replaces every word by
      `repl` of it. */
  lemma {:induction false} RewriteSeparated(repl: string -> string, seps: seq<string>, words: seq<string>)
    requires Separated(seps, words)
    ensures Advances(TokenMatch)
    ensures SubBy(TokenMatch, repl, Interleave(seps, words)) == Interleave(seps, MapEach(repl, words))
    decreases |words|
  {
    TokenMatchAdvances();
    if |words| == 0 {
      TokenSubSkipRun(repl, seps[0], "");
      assert seps[0] + "" == seps[0];
    } else {
      var tail := Interleave(seps[1..], words[1..]);
      assert Separated(seps[1..], words[1..]);
      InterleaveFirst(seps[1..], words[1..]);
      SeparatedStep(repl, seps[0], words[0], tail);
      RewriteSeparated(repl, seps[1..], words[1..]);
      assert MapEach(repl, words)[1..] == MapEach(repl, words[1..]);
    }
  }

  /** The loop of `apply_highlight`: plain parts (even indices) go through
      the token rewrite, protected parts (odd indices) are kept. */
  function HighlightParts(parts: seq<string>): (r: seq<string>)
    ensures |r| == |parts|
    decreases |parts|
  {
    if |parts| == 0 then []
    else if |parts| == 1 then [RewriteTokens(parts[0])]
    else [RewriteTokens(parts[0]), parts[1]] + HighlightParts(parts[2..])
  }

  /** Index by index, as the loop over `enumerate(parts)` states it. */
  lemma {:induction false} HighlightPartsAt(parts: seq<string>)
    ensures forall i :: 0 <= i < |parts| ==>
      HighlightParts(parts)[i] == if i % 2 == 1 then parts[i] else RewriteTokens(parts[i])
    decreases |parts|
  {
    if |parts| >= 2 {
      HighlightPartsAt(parts[2..]);
      forall i | 2 <= i < |parts|
        ensures HighlightParts(parts)[i] == if i % 2 == 1 then parts[i] else RewriteTokens(parts[i])
      {
        assert HighlightParts(parts)[i] == HighlightParts(parts[2..])[i - 2];
        assert parts[i] == parts[2..][i - 2];
        assert (i - 2) % 2 == i % 2;
      }
    }
  }

  /** `apply_highlight(text)` */
  function ApplyHighlight(text: string): string
  {
    NormalizeInlineMath(Concat(HighlightParts(Split(text))))
  }

  /** Text with neither backticks nor dollars is one plain part: the
      token rewrite sees all of it. */
  lemma HighlightPlainText(text: string)
    requires forall i :: 0 <= i < |text| ==> text[i] != '`' && text[i] != '$'
    ensures ApplyHighlight(text) == NormalizeInlineMath(RewriteTokens(text))
  {
    SplitWithoutDelimiters(text);
    var r := RewriteTokens(text);
    assert HighlightParts(Split(text)) == [r];
    assert Concat([r]) == r + Concat([]);
    assert Concat(HighlightParts(Split(text))) == r;
    assert ApplyHighlight(text) == NormalizeInlineMath(Concat(HighlightParts(Split(text))));
  }
}
